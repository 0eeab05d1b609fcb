/** Integer facts the digit arithmetic of rearrange.js rests on: powers and
    floor division. Dafny's `/` and `%` with a positive divisor are floor
    division and a non-negative remainder, which is what `Math.floor(n / d)`
    computes for a positive `d`. */
module Arith {

  /** b raised to a natural exponent, as `b**e` computes for integers. */
  function Pow(b: int, e: nat): int
  {
    if e == 0 then 1 else b * Pow(b, e - 1)
  }

  lemma {:induction false} PowPositive(b: int, e: nat)
    requires b >= 1
    ensures Pow(b, e) >= 1
  {
    if e > 0 {
      PowPositive(b, e - 1);
      MulAtLeast(b, Pow(b, e - 1));
    }
  }

  lemma MulAtLeast(a: int, c: int)
    requires a >= 1 && c >= 1
    ensures a * c >= c && a * c >= a
  {
  }

  lemma {:induction false} PowAdd(b: int, i: nat, j: nat)
    ensures Pow(b, i + j) == Pow(b, i) * Pow(b, j)
  {
    if j > 0 {
      PowAdd(b, i, j - 1);
      assert Pow(b, i + j) == b * Pow(b, i + j - 1);
    }
  }

  /** Strictly increasing in the base for a positive exponent. */
  lemma {:induction false} PowStrictBase(a: int, c: int, e: nat)
    requires 1 <= a < c && e >= 1
    ensures 1 <= Pow(a, e) < Pow(c, e)
  {
    if e == 1 {
    } else {
      PowStrictBase(a, c, e - 1);
      var x, y := Pow(a, e - 1), Pow(c, e - 1);
      assert a * x < c * y by {
        assert a * x <= a * y;
        assert a * y < c * y;
      }
    }
  }

  /** Floor division and remainder are determined by x == c * q + r, 0 <= r < c. */
  lemma DivModUnique(x: int, c: int, q: int, r: int)
    requires c > 0 && 0 <= r < c && x == c * q + r
    ensures x / c == q && x % c == r
  {
    var k := q - x / c;
    assert c * k == x % c - r by {
      assert x == c * (x / c) + x % c;
      MulSub(c, q, x / c);
    }
    if k >= 1 {
      MulAtLeast(k, c);
    } else if k <= -1 {
      MulAtLeast(-k, c);
    }
  }

  lemma MulSub(c: int, a: int, b: int)
    ensures c * (a - b) == c * a - c * b
  {
  }

  lemma DivAddMultiple(x: int, c: int, k: int)
    requires c > 0
    ensures (x + c * k) / c == x / c + k && (x + c * k) % c == x % c
  {
    DivModUnique(x + c * k, c, x / c + k, x % c);
  }

  /** Dividing by a, then by c, is dividing by a * c. */
  lemma DivDiv(x: int, a: int, c: int)
    requires a > 0 && c > 0
    ensures a * c > 0 && x / (a * c) == (x / a) / c
  {
    SplitDivMod(x, a, c);
    DivModUnique(x, a * c, (x / a) / c, x % a + a * ((x / a) % c));
  }

  /** x == (a * c) * ((x / a) / c) + (x % a + a * ((x / a) % c)), with the
      second summand in [0, a * c). */
  lemma SplitDivMod(x: int, a: int, c: int)
    requires a > 0 && c > 0
    ensures a * c > 0
    ensures 0 <= x % a + a * ((x / a) % c) < a * c
    ensures x == (a * c) * ((x / a) / c) + (x % a + a * ((x / a) % c))
  {
    var q1, r1 := x / a, x % a;
    var q2, r2 := q1 / c, q1 % c;
    assert x == a * q1 + r1;
    assert q1 == c * q2 + r2;
    assert a * q1 == (a * c) * q2 + a * r2 by {
      Distribute(a, c * q2, r2);
      assert a * (c * q2) == (a * c) * q2;
    }
    assert 0 <= a * r2 <= a * c - a by {
      assert 0 <= r2 <= c - 1;
      MulMono(a, r2, c - 1);
      MulSub(a, c, 1);
    }
    MulAtLeast(a, c);
  }

  lemma Distribute(a: int, u: int, v: int)
    ensures a * (u + v) == a * u + a * v
  {
  }

  lemma MulMono(a: int, u: int, v: int)
    requires a >= 0 && 0 <= u <= v
    ensures 0 <= a * u <= a * v
  {
    assert a * v - a * u == a * (v - u);
  }

  /** The remainder modulo a * c splits into the remainder modulo a and the
      next digit in base c. */
  lemma ModMul(x: int, a: int, c: int)
    requires a > 0 && c > 0
    ensures a * c > 0 && x % (a * c) == x % a + a * ((x / a) % c)
  {
    SplitDivMod(x, a, c);
    DivModUnique(x, a * c, (x / a) / c, x % a + a * ((x / a) % c));
  }
}
