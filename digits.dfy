/** Digit extraction, `getDigit` of rearrange.js, and what follows from it:
    the round trip from digits back to the number and the digit sum. */
module Digits {
  import opened Arith

  /** JavaScript's `%` on integers: the remainder has the sign of the
      dividend (truncated division), unlike Dafny's Euclidean `%`. */
  function JsMod(x: int, m: int): (r: int)
    requires m > 0
    ensures x >= 0 ==> 0 <= r < m
    ensures x < 0 ==> -m < r <= 0
    ensures (x - r) % m == 0
  {
    if x >= 0 then
      DivModUnique(x - x % m, m, x / m, 0);
      x % m
    else
      NegMod(x, m);
      -((-x) % m)
  }

  lemma NegMod(x: int, m: int)
    requires m > 0 && x < 0
    ensures (x + (-x) % m) % m == 0
  {
    var y := -x;
    assert y == m * (y / m) + y % m;
    assert x + y % m == m * (-(y / m)) + 0;
    DivModUnique(x + y % m, m, -(y / m), 0);
  }

  /** `getDigit(n, p, b)`: `Math.floor(n / b**p) % b`, the digit of `n` in
      position `p` of base `b`. For a negative `n` the digit is negative or
      zero, because of the truncating `%`. */
  function GetDigit(n: int, p: nat, b: int): (r: int)
    requires b >= 1
    ensures n >= 0 ==> 0 <= r < b
    ensures n < 0 ==> -b < r <= 0
  {
    PowPositive(b, p);
    DivSign(n, Pow(b, p));
    JsMod(n / Pow(b, p), b)
  }

  lemma DivSign(n: int, c: int)
    requires c >= 1
    ensures n >= 0 <==> n / c >= 0
  {
    DivModUnique(n, c, n / c, n % c);
    if n / c < 0 {
      MulAtLeast(-(n / c), c);
    }
  }

  /** Position p + 1 of x is position p of x / b. */
  lemma GetDigitShift(x: int, p: nat, b: int)
    requires b >= 1
    ensures GetDigit(x, p + 1, b) == GetDigit(x / b, p, b)
  {
    PowPositive(b, p);
    assert Pow(b, p + 1) == b * Pow(b, p);
    DivDiv(x, b, Pow(b, p));
  }

  /** Position p + q of x is position p of x / b^q. */
  lemma {:induction false} GetDigitShiftBy(x: int, p: nat, q: nat, b: int)
    requires b >= 1
    ensures Pow(b, q) >= 1
    ensures GetDigit(x, p + q, b) == GetDigit(x / Pow(b, q), p, b)
  {
    PowPositive(b, q);
    PowPositive(b, p);
    PowAdd(b, q, p);
    DivDiv(x, Pow(b, q), Pow(b, p));
  }

  /** The lowest digit of b * r + d is d. */
  lemma GetDigitLow(r: int, d: int, b: int)
    requires b >= 1 && 0 <= d < b && r >= 0
    ensures GetDigit(b * r + d, 0, b) == d
  {
    DivModUnique(b * r + d, b, r, d);
  }

  /** The higher digits of b * r + d are the digits of r. */
  lemma GetDigitNext(r: int, d: int, p: nat, b: int)
    requires b >= 1 && 0 <= d < b
    ensures GetDigit(b * r + d, p + 1, b) == GetDigit(r, p, b)
  {
    GetDigitShift(b * r + d, p, b);
    DivModUnique(b * r + d, b, r, d);
  }

  /** Adding a multiple of b^m to a non-negative number leaves the digits
      below position m alone. */
  lemma GetDigitAddHigh(x: int, k: int, i: nat, m: nat, b: int)
    requires b >= 1 && x >= 0 && k >= 0 && i < m
    ensures Pow(b, m) >= 1
    ensures GetDigit(x + k * Pow(b, m), i, b) == GetDigit(x, i, b)
  {
    PowPositive(b, m);
    PowPositive(b, i);
    PowPositive(b, m - i - 1);
    PowAdd(b, i, m - i);
    assert Pow(b, m - i) == b * Pow(b, m - i - 1);
    Regroup(k, Pow(b, i), b, Pow(b, m - i - 1));
    AddHighCore(x, Pow(b, i), b, k * Pow(b, m - i - 1));
  }

  lemma Regroup(k: int, c: int, b: int, p: int)
    ensures k * (c * (b * p)) == c * (b * (k * p))
  {
  }

  lemma AddHighCore(x: int, c: int, b: int, t: int)
    requires c >= 1 && b >= 1 && x >= 0 && t >= 0
    ensures JsMod((x + c * (b * t)) / c, b) == JsMod(x / c, b)
  {
    DivAddMultiple(x, c, b * t);
    DivSign(x, c);
    DivAddMultiple(x / c, b, t);
  }

  /** The sum of digits 0 .. n-1 of x times their place values. */
  function Reconstruct(x: int, n: nat, b: int): int
    requires b >= 1
  {
    if n == 0 then 0 else Reconstruct(x, n - 1, b) + GetDigit(x, n - 1, b) * Pow(b, n - 1)
  }

  /** Digits 0 .. n-1 of a non-negative x rebuild x modulo b^n. */
  lemma {:induction false} ReconstructMod(x: int, n: nat, b: int)
    requires b >= 1 && x >= 0
    ensures Pow(b, n) >= 1 && Reconstruct(x, n, b) == x % Pow(b, n)
  {
    PowPositive(b, n);
    if n == 0 {
      DivModUnique(x, 1, x, 0);
    } else {
      ReconstructMod(x, n - 1, b);
      PowPositive(b, n - 1);
      var c := Pow(b, n - 1);
      var g := GetDigit(x, n - 1, b);
      DivSign(x, c);
      assert g == (x / c) % b;
      assert Pow(b, n) == c * b by {
        assert Pow(b, n) == b * c;
      }
      ModMul(x, c, b);
      assert Reconstruct(x, n, b) == x % c + c * g by {
        assert g * c == c * g;
      }
    }
  }

  /** The round trip: the n digits of any 0 <= x < b^n give back x. */
  lemma ReconstructRoundTrip(x: int, n: nat, b: int)
    requires b >= 1 && 0 <= x < Pow(b, n)
    ensures Reconstruct(x, n, b) == x
  {
    ReconstructMod(x, n, b);
    DivModUnique(x, Pow(b, n), 0, x);
  }

  /** The sum of digits 0 .. n-1 of x in base b. */
  function DigitSum(x: int, n: nat, b: int): (r: int)
    requires b >= 1
    ensures x >= 0 ==> 0 <= r <= (b - 1) * n
  {
    if n == 0 then 0 else DigitSum(x, n - 1, b) + GetDigit(x, n - 1, b)
  }

  /** An n-digit base-b number whose digits sum to s. */
  predicate HasDigitSum(x: int, n: nat, s: int, b: int)
    requires b >= 1
  {
    0 <= x < Pow(b, n) && DigitSum(x, n, b) == s
  }

  lemma {:induction false} DigitSumAgree(x: int, y: int, m: nat, b: int)
    requires b >= 1
    requires forall i :: 0 <= i < m ==> GetDigit(x, i, b) == GetDigit(y, i, b)
    ensures DigitSum(x, m, b) == DigitSum(y, m, b)
  {
    if m > 0 {
      DigitSumAgree(x, y, m - 1, b);
    }
  }

  /** Putting a digit d on top of an m-digit number y. */
  lemma TopDigit(d: int, y: int, m: nat, b: int)
    requires b >= 1 && 0 <= d < b && 0 <= y < Pow(b, m)
    ensures 0 <= d * Pow(b, m) + y < Pow(b, m + 1)
    ensures GetDigit(d * Pow(b, m) + y, m, b) == d
    ensures forall i :: 0 <= i < m ==> GetDigit(d * Pow(b, m) + y, i, b) == GetDigit(y, i, b)
    ensures DigitSum(d * Pow(b, m) + y, m + 1, b) == d + DigitSum(y, m, b)
  {
    var x := d * Pow(b, m) + y;
    PowPositive(b, m);
    assert Pow(b, m + 1) == b * Pow(b, m);
    TopBound(d, Pow(b, m), y, b);
    assert GetDigit(x, m, b) == d by {
      DivModUnique(x, Pow(b, m), d, y);
      DivModUnique(d, b, 0, d);
    }
    forall i | 0 <= i < m
      ensures GetDigit(x, i, b) == GetDigit(y, i, b)
    {
      GetDigitAddHigh(y, d, i, m, b);
    }
    DigitSumAgree(x, y, m, b);
  }

  lemma TopBound(d: int, c: int, y: int, b: int)
    requires 0 <= d < b && 0 <= y < c
    ensures 0 <= d * c + y < b * c
  {
    MulMono(c, d, b - 1);
    assert c * (b - 1) == b * c - c;
  }

  /** Every (m+1)-digit number is a top digit over an m-digit number. */
  lemma SplitTop(x: int, m: nat, b: int)
    requires b >= 1 && 0 <= x < Pow(b, m + 1)
    ensures Pow(b, m) >= 1
    ensures 0 <= x / Pow(b, m) < b && 0 <= x % Pow(b, m) < Pow(b, m)
    ensures x == (x / Pow(b, m)) * Pow(b, m) + x % Pow(b, m)
  {
    var c := Pow(b, m);
    PowPositive(b, m);
    assert Pow(b, m + 1) == b * c;
    DivSign(x, c);
    if x / c >= b {
      MulMono(c, b, x / c);
    }
  }

  /** Every digit of zero is zero. */
  lemma GetDigitZero(p: nat, b: int)
    requires b >= 1
    ensures GetDigit(0, p, b) == 0
  {
    PowPositive(b, p);
    DivModUnique(0, Pow(b, p), 0, 0);
  }

  /** Adding k to digit i of a non-negative x, without a carry, adds
      k * b^i to x; the other digits stay. */
  lemma AddToDigit(x: int, i: nat, k: nat, b: int)
    requires b >= 1 && x >= 0 && GetDigit(x, i, b) + k < b
    ensures Pow(b, i) >= 1
    ensures GetDigit(x + k * Pow(b, i), i, b) == GetDigit(x, i, b) + k
    ensures forall j :: 0 <= j < i ==> GetDigit(x + k * Pow(b, i), j, b) == GetDigit(x, j, b)
    ensures forall j :: i < j ==> GetDigit(x + k * Pow(b, i), j, b) == GetDigit(x, j, b)
  {
    PowPositive(b, i);
    var c := Pow(b, i);
    var x' := x + k * c;
    var q := x / c;
    AddToDigitAt(x, i, k, b);
    AddToDigitQuotient(x, c, k, b);
    forall j | 0 <= j < i
      ensures GetDigit(x', j, b) == GetDigit(x, j, b)
    {
      GetDigitAddHigh(x, k, j, i, b);
    }
    forall j | i < j
      ensures GetDigit(x', j, b) == GetDigit(x, j, b)
    {
      AddToDigitAbove(x, x', c, q, i, j, k, b);
    }
  }

  lemma AddToDigitAt(x: int, i: nat, k: nat, b: int)
    requires b >= 1 && x >= 0 && GetDigit(x, i, b) + k < b
    ensures Pow(b, i) >= 1
    ensures GetDigit(x + k * Pow(b, i), i, b) == GetDigit(x, i, b) + k
  {
    PowPositive(b, i);
    var c := Pow(b, i);
    AddToDigitQuotient(x, c, k, b);
    GetDigitShiftBy(x, 0, i, b);
    GetDigitShiftBy(x + k * c, 0, i, b);
  }

  lemma AddToDigitQuotient(x: int, c: int, k: nat, b: int)
    requires b >= 1 && c >= 1 && x >= 0 && JsMod(x / c, b) + k < b
    ensures (x + k * c) / c == x / c + k
    ensures (x / c + k) / b == (x / c) / b && JsMod(x / c + k, b) == JsMod(x / c, b) + k
  {
    var q := x / c;
    DivAddMultiple(x, c, k);
    DivSign(x, c);
    DivModUnique(q + k, b, q / b, q % b + k);
  }

  lemma AddToDigitAbove(x: int, x': int, c: int, q: int, i: nat, j: nat, k: nat, b: int)
    requires b >= 1 && i < j && c == Pow(b, i) && c >= 1
    requires q == x / c && x' / c == q + k && (q + k) / b == q / b
    ensures GetDigit(x', j, b) == GetDigit(x, j, b)
  {
    GetDigitShiftBy(x, j - i, i, b);
    GetDigitShiftBy(x', j - i, i, b);
    GetDigitShift(q, j - i - 1, b);
    GetDigitShift(q + k, j - i - 1, b);
  }
}
