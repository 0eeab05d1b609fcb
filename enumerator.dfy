/** The generator `nDigitsSumToS(n, s, b, res)` of rearrange.js: every
    n-digit base-b number whose digits sum to s, most significant digit
    chosen first, the value accumulated as `b * res + d`. */
module Enumerator {
  import opened Arith
  import opened Digits

  /** What the generator yields, in order, as a finite sequence. How many
      values it yields does not depend on the accumulator `res`. */
  function NDigitsSumToS(n: int, s: int, b: int, res: int): (r: seq<int>)
    ensures |r| == Count(n, s, b)
    decreases if n > 0 then n else 0, 1, 0
  {
    if n == 0 && s == 0 then [res]
    else if n > 0 && s >= 0 then DigitLoop(n, s, b, res, 0)
    else []
  }

  /** What the generator's `for` loop over the leading digit yields from
      digit d on: `d < b && s - d >= 0` is its guard. */
  function DigitLoop(n: int, s: int, b: int, res: int, d: nat): (r: seq<int>)
    requires n > 0
    ensures |r| == CountLoop(n, s, b, d)
    decreases n, 0, b - d
  {
    if d < b && s - d >= 0 then
      NDigitsSumToS(n - 1, s - d, b, b * res + d) + DigitLoop(n, s, b, res, d + 1)
    else []
  }

  /** The generator itself: recursion on the digit count, a loop over the
      leading digit, each recursive call's output appended in turn. */
  method Enumerate(n: int, s: int, b: int, res: int) returns (out: seq<int>)
    ensures out == NDigitsSumToS(n, s, b, res)
    decreases if n > 0 then n else 0
  {
    if n == 0 && s == 0 {
      out := [res];
    } else if n > 0 && s >= 0 {
      out := [];
      var d := 0;
      while d < b && s - d >= 0
        invariant 0 <= d
        invariant out + DigitLoop(n, s, b, res, d) == DigitLoop(n, s, b, res, 0)
        decreases b - d
      {
        var part := Enumerate(n - 1, s - d, b, b * res + d);
        assert DigitLoop(n, s, b, res, d) == part + DigitLoop(n, s, b, res, d + 1);
        out := out + part;
        d := d + 1;
      }
    } else {
      out := [];
    }
  }

  /** The values of xs, each plus c. */
  function Shift(xs: seq<int>, c: int): (r: seq<int>)
    ensures |r| == |xs| && forall k :: 0 <= k < |xs| ==> r[k] == xs[k] + c
  {
    seq(|xs|, k requires 0 <= k < |xs| => xs[k] + c)
  }

  lemma ShiftConcat(xs: seq<int>, ys: seq<int>, c: int)
    ensures Shift(xs, c) + Shift(ys, c) == Shift(xs + ys, c)
  {
  }

  lemma ShiftShift(xs: seq<int>, c1: int, c2: int)
    ensures Shift(Shift(xs, c1), c2) == Shift(xs, c1 + c2)
  {
  }

  /** The accumulator: a call with `res` yields `res * b^n + x` for each x the
      call with `res = 0` yields, in the same order. */
  lemma {:induction false} Accumulator(n: nat, s: int, b: int, res: int)
    ensures NDigitsSumToS(n, s, b, res) == Shift(NDigitsSumToS(n, s, b, 0), res * Pow(b, n))
    decreases n, 1, 0
  {
    if n == 0 && s == 0 {
      assert Shift([0], res * Pow(b, 0)) == [res];
    } else if n > 0 && s >= 0 {
      AccumulatorLoop(n, s, b, res, 0);
    }
  }

  lemma {:induction false} AccumulatorLoop(n: nat, s: int, b: int, res: int, d: nat)
    requires n > 0
    ensures DigitLoop(n, s, b, res, d) == Shift(DigitLoop(n, s, b, 0, d), res * Pow(b, n))
    decreases n, 0, b - d
  {
    if d < b && s - d >= 0 {
      var c := res * Pow(b, n);
      var block := NDigitsSumToS(n - 1, s - d, b, b * 0 + d);
      AccumulatorBlock(n, s, b, res, d);
      AccumulatorLoop(n, s, b, res, d + 1);
      ShiftConcat(block, DigitLoop(n, s, b, 0, d + 1), c);
    }
  }

  /** The block of leading digit d, with and without the accumulator. */
  lemma AccumulatorBlock(n: nat, s: int, b: int, res: int, d: nat)
    requires n > 0
    ensures NDigitsSumToS(n - 1, s - d, b, b * res + d)
      == Shift(NDigitsSumToS(n - 1, s - d, b, b * 0 + d), res * Pow(b, n))
    decreases n, 0, 0
  {
    var p := Pow(b, n - 1);
    var zs := NDigitsSumToS(n - 1, s - d, b, 0);
    Accumulator(n - 1, s - d, b, b * res + d);
    Accumulator(n - 1, s - d, b, b * 0 + d);
    AccumulatorArith(b, res, d, p);
    ShiftShift(zs, d * p, res * (b * p));
  }

  lemma AccumulatorArith(b: int, res: int, d: int, p: int)
    ensures (b * res + d) * p == d * p + res * (b * p) && (b * 0 + d) * p == d * p
  {
  }

  /** Digits of an n-digit number with digit sum s: for use with the
      enumeration's output. */
  predicate Sound(xs: seq<int>, n: nat, s: int, b: int)
    requires b >= 1
  {
    forall x :: x in xs ==> HasDigitSum(x, n, s, b)
  }

  /** Every output of a `res = 0` call is below b^n with n digits summing to s. */
  lemma {:induction false} Soundness(n: nat, s: int, b: int)
    requires b >= 1
    ensures Sound(NDigitsSumToS(n, s, b, 0), n, s, b)
    decreases n, 1, 0
  {
    if n == 0 && s == 0 {
      assert HasDigitSum(0, 0, 0, b);
    } else if n > 0 && s >= 0 {
      SoundnessLoop(n, s, b, 0);
    }
  }

  lemma {:induction false} SoundnessLoop(n: nat, s: int, b: int, d: nat)
    requires b >= 1 && n > 0
    ensures Sound(DigitLoop(n, s, b, 0, d), n, s, b)
    ensures forall x :: x in DigitLoop(n, s, b, 0, d) ==> x >= d * Pow(b, n - 1)
    decreases n, 0, b - d
  {
    if d < b && s - d >= 0 {
      BlockBounds(n - 1, s - d, b, d);
      SoundnessLoop(n, s, b, d + 1);
      var p := Pow(b, n - 1);
      PowPositive(b, n - 1);
      assert d * p <= (d + 1) * p;
    }
  }

  /** The part of the output whose leading digit is d (the call with m digits
      left, sum t left and accumulator d): sound for m + 1 digits and sum
      t + d, and within [d * b^m, (d+1) * b^m). */
  lemma BlockBounds(m: nat, t: int, b: int, d: nat)
    requires b >= 1 && d < b && t >= 0
    ensures Sound(NDigitsSumToS(m, t, b, d), m + 1, t + d, b)
    ensures forall x :: x in NDigitsSumToS(m, t, b, d) ==> d * Pow(b, m) <= x < (d + 1) * Pow(b, m)
    decreases m + 1, 0, 0
  {
    var p := Pow(b, m);
    var zs := NDigitsSumToS(m, t, b, 0);
    Accumulator(m, t, b, d);
    Soundness(m, t, b);
    forall x | x in NDigitsSumToS(m, t, b, d)
      ensures HasDigitSum(x, m + 1, t + d, b) && d * p <= x < (d + 1) * p
    {
      var k :| 0 <= k < |zs| && x == zs[k] + d * p;
      TopBlock(m, t, b, d, zs[k]);
    }
  }

  /** One output of the block: the digit d on top of an m-digit number y. */
  lemma TopBlock(m: nat, t: int, b: int, d: nat, y: int)
    requires b >= 1 && d < b && HasDigitSum(y, m, t, b)
    ensures HasDigitSum(d * Pow(b, m) + y, m + 1, t + d, b)
    ensures d * Pow(b, m) <= d * Pow(b, m) + y < (d + 1) * Pow(b, m)
  {
    TopDigit(d, y, m, b);
    assert (d + 1) * Pow(b, m) == d * Pow(b, m) + Pow(b, m);
  }

  predicate StrictlyIncreasing(xs: seq<int>)
  {
    forall i, j :: 0 <= i < j < |xs| ==> xs[i] < xs[j]
  }

  lemma ConcatIncreasing(xs: seq<int>, ys: seq<int>)
    requires StrictlyIncreasing(xs) && StrictlyIncreasing(ys)
    requires forall x, y :: x in xs && y in ys ==> x < y
    ensures StrictlyIncreasing(xs + ys)
  {
    var zs := xs + ys;
    forall i, j | 0 <= i < j < |zs|
      ensures zs[i] < zs[j]
    {
      if i < |xs| && j >= |xs| {
        assert zs[i] in xs && zs[j] in ys;
      }
    }
  }

  lemma ShiftIncreasing(xs: seq<int>, c: int)
    requires StrictlyIncreasing(xs)
    ensures StrictlyIncreasing(Shift(xs, c))
  {
  }

  /** The output of a `res = 0` call is strictly increasing. */
  lemma {:induction false} Increasing(n: nat, s: int, b: int)
    requires b >= 1
    ensures StrictlyIncreasing(NDigitsSumToS(n, s, b, 0))
    decreases n, 1, 0
  {
    if n > 0 && s >= 0 {
      IncreasingLoop(n, s, b, 0);
    }
  }

  lemma {:induction false} IncreasingLoop(n: nat, s: int, b: int, d: nat)
    requires b >= 1 && n > 0
    ensures StrictlyIncreasing(DigitLoop(n, s, b, 0, d))
    decreases n, 0, b - d
  {
    if d < b && s - d >= 0 {
      var block := NDigitsSumToS(n - 1, s - d, b, b * 0 + d);
      var rest := DigitLoop(n, s, b, 0, d + 1);
      Increasing(n - 1, s - d, b);
      Accumulator(n - 1, s - d, b, d);
      ShiftIncreasing(NDigitsSumToS(n - 1, s - d, b, 0), d * Pow(b, n - 1));
      IncreasingLoop(n, s, b, d + 1);
      BlockBounds(n - 1, s - d, b, d);
      SoundnessLoop(n, s, b, d + 1);
      ConcatIncreasing(block, rest);
    }
  }

  /** The block of leading digit d is part of the loop's output from any
      d0 <= d on. */
  lemma {:induction false} LoopContains(n: nat, s: int, b: int, res: int, d0: nat, d: nat)
    requires n > 0 && d0 <= d < b && s - d >= 0
    ensures forall x :: x in NDigitsSumToS(n - 1, s - d, b, b * res + d) ==> x in DigitLoop(n, s, b, res, d0)
    decreases d - d0
  {
    if d0 < d {
      LoopContains(n, s, b, res, d0 + 1, d);
    }
  }

  /** Every n-digit base-b number whose digits sum to s is an output of the
      `res = 0` call. */
  lemma {:induction false} Completeness(n: nat, s: int, b: int, x: int)
    requires b >= 1 && HasDigitSum(x, n, s, b)
    ensures x in NDigitsSumToS(n, s, b, 0)
  {
    if n == 0 {
      assert x == 0;
    } else {
      var p := Pow(b, n - 1);
      SplitTop(x, n - 1, b);
      var d, y := x / p, x % p;
      TopDigit(d, y, n - 1, b);
      assert x == d * p + y;
      assert HasDigitSum(y, n - 1, s - d, b);
      Completeness(n - 1, s - d, b, y);
      Accumulator(n - 1, s - d, b, d);
      var zs := NDigitsSumToS(n - 1, s - d, b, 0);
      var k :| 0 <= k < |zs| && zs[k] == y;
      assert Shift(zs, d * p)[k] == x;
      LoopContains(n, s, b, 0, 0, d);
    }
  }

  /** The generator's contract for `res = 0`: it yields exactly the n-digit
      base-b numbers with digit sum s, each once, in increasing order. */
  lemma EnumerationCorrect(n: nat, s: int, b: int)
    requires b >= 1
    ensures forall x :: x in NDigitsSumToS(n, s, b, 0) <==> HasDigitSum(x, n, s, b)
    ensures StrictlyIncreasing(NDigitsSumToS(n, s, b, 0))
  {
    Soundness(n, s, b);
    Increasing(n, s, b);
    forall x | HasDigitSum(x, n, s, b)
      ensures x in NDigitsSumToS(n, s, b, 0)
    {
      Completeness(n, s, b, x);
    }
  }

  /** `nDigitsSumToS(n, s, b)` with the accumulator left at its default 0,
      as a sequence of naturals together with what EnumerationCorrect says
      about it. */
  method Distributions(n: nat, s: int, b: int) returns (out: seq<nat>)
    requires b >= 1
    ensures forall x :: x in out <==> HasDigitSum(x, n, s, b)
    ensures StrictlyIncreasing(out)
  {
    var all := Enumerate(n, s, b, 0);
    EnumerationCorrect(n, s, b);
    assert forall i :: 0 <= i < |all| ==> all[i] in all;
    out := all;
  }

  /** A strictly increasing sequence is determined by its set of elements. */
  lemma {:induction false} IncreasingUnique(xs: seq<int>, ys: seq<int>)
    requires StrictlyIncreasing(xs) && StrictlyIncreasing(ys)
    requires forall x :: x in xs <==> x in ys
    ensures xs == ys
    decreases |xs|
  {
    EmptyTogether(xs, ys);
    if xs != [] {
      HeadsEqual(xs, ys);
      forall x ensures x in xs[1..] <==> x in ys[1..] {
        if x in xs[1..] {
          TailMember(xs, ys, x);
        }
        if x in ys[1..] {
          TailMember(ys, xs, x);
        }
      }
      IncreasingUnique(xs[1..], ys[1..]);
      assert xs == [xs[0]] + xs[1..];
      assert ys == [ys[0]] + ys[1..];
    }
  }

  lemma EmptyTogether(xs: seq<int>, ys: seq<int>)
    requires forall x :: x in xs <==> x in ys
    ensures xs == [] <==> ys == []
  {
    if xs != [] {
      var a := xs[0];
      assert a in xs;
    }
    if ys != [] {
      var a := ys[0];
      assert a in ys;
    }
  }

  /** Both start with the least element of the shared set. */
  lemma HeadsEqual(xs: seq<int>, ys: seq<int>)
    requires StrictlyIncreasing(xs) && StrictlyIncreasing(ys)
    requires forall x :: x in xs <==> x in ys
    requires xs != [] && ys != []
    ensures xs[0] == ys[0]
  {
    var a, c := xs[0], ys[0];
    assert a in xs && c in ys;
    var j :| 0 <= j < |ys| && ys[j] == a;
    var i :| 0 <= i < |xs| && xs[i] == c;
    FirstIsLeast(ys, j);
    FirstIsLeast(xs, i);
  }

  lemma FirstIsLeast(xs: seq<int>, k: int)
    requires StrictlyIncreasing(xs) && 0 <= k < |xs|
    ensures xs[0] <= xs[k]
  {
    if k > 0 {
      assert xs[0] < xs[k];
    }
  }

  lemma TailMember(xs: seq<int>, ys: seq<int>, x: int)
    requires StrictlyIncreasing(xs) && StrictlyIncreasing(ys)
    requires xs != [] && ys != [] && xs[0] == ys[0]
    requires forall x :: x in xs <==> x in ys
    requires x in xs[1..]
    ensures x in ys[1..]
  {
    var i :| 1 <= i < |xs| && xs[i] == x;
    assert x in ys;
    var j :| 0 <= j < |ys| && ys[j] == x;
    assert j != 0;
    assert ys[1..][j - 1] == x;
  }

  /** Any strictly increasing listing of the n-digit base-b numbers with
      digit sum s is the generator's output. */
  lemma EnumerationUnique(xs: seq<int>, n: nat, s: int, b: int)
    requires b >= 1
    requires forall x :: x in xs <==> HasDigitSum(x, n, s, b)
    requires StrictlyIncreasing(xs)
    ensures xs == NDigitsSumToS(n, s, b, 0)
  {
    EnumerationCorrect(n, s, b);
    IncreasingUnique(xs, NDigitsSumToS(n, s, b, 0));
  }

  /** The generator yields nothing exactly when no n-digit base-b number can
      have digit sum s: s < 0, n < 0, n == 0 with s != 0, or s > (b-1) * n. */
  lemma EmptyCases(n: int, s: int, b: int, res: int)
    requires b >= 1
    ensures NDigitsSumToS(n, s, b, res) == [] <==>
      (s < 0 || n < 0 || (n == 0 && s != 0) || s > (b - 1) * n)
  {
    if n < 0 || s < 0 {
    } else if s > (b - 1) * n {
      TooLarge(n, s, b, res);
    } else {
      NonEmpty(n, s, b, res);
    }
  }

  lemma {:induction false} TooLarge(n: nat, s: int, b: int, res: int)
    requires b >= 1 && s > (b - 1) * n
    ensures NDigitsSumToS(n, s, b, res) == []
    decreases n, 1, 0
  {
    if n > 0 && s >= 0 {
      TooLargeLoop(n, s, b, res, 0);
    }
  }

  lemma {:induction false} TooLargeLoop(n: nat, s: int, b: int, res: int, d: nat)
    requires b >= 1 && n > 0 && s > (b - 1) * n
    ensures DigitLoop(n, s, b, res, d) == []
    decreases n, 0, b - d
  {
    if d < b && s - d >= 0 {
      assert s - d > (b - 1) * (n - 1);
      TooLarge(n - 1, s - d, b, b * res + d);
      TooLargeLoop(n, s, b, res, d + 1);
    }
  }

  lemma {:induction false} NonEmpty(n: nat, s: int, b: int, res: int)
    requires b >= 1 && 0 <= s <= (b - 1) * n
    ensures |NDigitsSumToS(n, s, b, res)| > 0
  {
    if n > 0 {
      var d := if s < b - 1 then s else b - 1;
      RemainingRoom(s, d, b, n);
      var r := b * res + d;
      NonEmpty(n - 1, s - d, b, r);
      var ys := NDigitsSumToS(n - 1, s - d, b, r);
      var x := ys[0];
      assert x in ys;
      LoopContains(n, s, b, res, 0, d);
      assert x in DigitLoop(n, s, b, res, 0);
    }
  }

  /** After the largest possible leading digit, the rest still fits. */
  lemma RemainingRoom(s: int, d: int, b: int, n: int)
    requires b >= 1 && n >= 1 && 0 <= s <= (b - 1) * n
    requires d == if s < b - 1 then s else b - 1
    ensures 0 <= s - d <= (b - 1) * (n - 1)
  {
    assert (b - 1) * n == (b - 1) * (n - 1) + (b - 1);
    MulNonNegative(b - 1, n - 1);
  }

  lemma MulNonNegative(a: int, c: int)
    requires a >= 0 && c >= 0
    ensures a * c >= 0
  {
  }

  /** The number of outputs, by the generator's own recursion. */
  function Count(n: int, s: int, b: int): nat
    decreases if n > 0 then n else 0, 1, 0
  {
    if n == 0 && s == 0 then 1
    else if n > 0 && s >= 0 then CountLoop(n, s, b, 0)
    else 0
  }

  function CountLoop(n: int, s: int, b: int, d: nat): nat
    requires n > 0
    decreases n, 0, b - d
  {
    if d < b && s - d >= 0 then Count(n - 1, s - d, b) + CountLoop(n, s, b, d + 1) else 0
  }

  /** Count(n-1, lo) + ... + Count(n-1, hi). */
  function RangeCount(m: int, b: int, lo: int, hi: int): nat
    decreases hi - lo
  {
    if hi < lo then 0 else Count(m, hi, b) + RangeCount(m, b, lo, hi - 1)
  }

  /** The loop from digit d on counts the (n-1)-digit outputs for the sums
      s - min(b-1, s) .. s - d. */
  lemma {:induction false} CountLoopRange(n: int, s: int, b: int, d: nat)
    requires n > 0 && s >= 0 && b >= 1
    ensures CountLoop(n, s, b, d) == RangeCount(n - 1, b, s - (if s < b - 1 then s else b - 1), s - d)
    decreases b - d
  {
    if d < b && s - d >= 0 {
      CountLoopRange(n, s, b, d + 1);
    }
  }

  lemma {:induction false} RangeCountLow(m: int, b: int, lo: int, hi: int)
    requires lo <= hi
    ensures RangeCount(m, b, lo, hi) == Count(m, lo, b) + RangeCount(m, b, lo + 1, hi)
    decreases hi - lo
  {
    if lo < hi {
      RangeCountLow(m, b, lo, hi - 1);
    }
  }

  /** The sliding-window recurrence of the counts: going from sum s - 1 to s
      gains the (n-1)-digit count for s and loses the one for s - b. */
  lemma CountSlide(n: int, s: int, b: int)
    requires n > 0 && s > 0 && b >= 1
    ensures Count(n, s, b) == Count(n, s - 1, b) + Count(n - 1, s, b) - (if s >= b then Count(n - 1, s - b, b) else 0)
  {
    CountLoopRange(n, s, b, 0);
    CountLoopRange(n, s - 1, b, 0);
    if s >= b {
      RangeCountLow(n - 1, b, s - (b - 1) - 1, s - 1);
    }
  }

  lemma {:induction false} CountZeroSum(n: nat, b: int)
    requires b >= 1
    ensures Count(n, 0, b) == 1
  {
    if n > 0 {
      CountZeroSum(n - 1, b);
      assert CountLoop(n, 0, b, 1) == 0;
    }
  }

  /** The number of ways to write s as n ordered non-negative parts, with no
      bound on a part: C(s + n - 1, n - 1), by Pascal's rule. */
  function Unbounded(n: nat, s: int): nat
    decreases n, if s > 0 then s else 0
  {
    if s < 0 then 0
    else if n == 0 then (if s == 0 then 1 else 0)
    else if s == 0 then 1
    else Unbounded(n, s - 1) + Unbounded(n - 1, s)
  }

  /** Inclusion and exclusion for sums below 2b: at most one of the n digits
      can exceed b - 1, so the capped count is the unbounded one less n times
      the number of ways with a chosen digit at least b. */
  lemma {:induction false} CountBelowTwoBases(n: nat, s: int, b: int)
    requires b >= 1 && 0 <= s < 2 * b
    ensures Count(n, s, b) == Unbounded(n, s) - n * Unbounded(n, s - b)
    decreases n, s
  {
    if n == 0 {
    } else if s == 0 {
      CountZeroSum(n, b);
    } else {
      CountSlide(n, s, b);
      CountBelowTwoBases(n, s - 1, b);
      CountBelowTwoBases(n - 1, s, b);
      var m := n - 1;
      if s >= b {
        CountBelowTwoBases(n - 1, s - b, b);
        assert Unbounded(m, s - b - b) == 0;
        assert Unbounded(n, s - b) == Unbounded(n, s - 1 - b) + Unbounded(m, s - b);
        SlideArith(n, Unbounded(n, s - 1 - b), Unbounded(m, s - b));
      } else {
        assert Unbounded(n, s - b) == 0 && Unbounded(n, s - 1 - b) == 0 && Unbounded(m, s - b) == 0;
      }
    }
  }

  lemma SlideArith(n: int, x: int, y: int)
    ensures n * (x + y) == n * x + (n - 1) * y + y
  {
  }

  /** The first five columns of Pascal's triangle in closed form:
      Unbounded(n, s) == C(s + n - 1, n - 1). */
  lemma {:induction false} UnboundedClosedForm(s: nat)
    ensures Unbounded(1, s) == 1
    ensures Unbounded(2, s) == s + 1
    ensures 2 * Unbounded(3, s) == (s + 1) * (s + 2)
    ensures 6 * Unbounded(4, s) == (s + 1) * (s + 2) * (s + 3)
    ensures 24 * Unbounded(5, s) == (s + 1) * (s + 2) * (s + 3) * (s + 4)
  {
    if s > 0 {
      UnboundedClosedForm(s - 1);
      var u1, u2, u3, u4, u5 := Unbounded(1, s - 1), Unbounded(2, s - 1), Unbounded(3, s - 1), Unbounded(4, s - 1), Unbounded(5, s - 1);
      assert Unbounded(1, s) == u1 + Unbounded(0, s);
      assert Unbounded(2, s) == u2 + Unbounded(1, s);
      assert Unbounded(3, s) == u3 + Unbounded(2, s);
      assert Unbounded(4, s) == u4 + Unbounded(3, s);
      assert Unbounded(5, s) == u5 + Unbounded(4, s);
      PascalStep(s, u3, u4, u5);
    }
  }

  lemma PascalStep(s: int, u3: int, u4: int, u5: int)
    requires 2 * u3 == s * (s + 1)
    requires 6 * u4 == s * (s + 1) * (s + 2)
    requires 24 * u5 == s * (s + 1) * (s + 2) * (s + 3)
    ensures 2 * (u3 + s + 1) == (s + 1) * (s + 2)
    ensures 6 * (u4 + u3 + s + 1) == (s + 1) * (s + 2) * (s + 3)
    ensures 24 * (u5 + u4 + u3 + s + 1) == (s + 1) * (s + 2) * (s + 3) * (s + 4)
  {
  }

  /** `nDigitsSumToS(5, 25, 16)` yields 20176 distributions: the C(29, 4) =
      23751 ways to write 25 as five ordered parts, less the 5 * C(13, 4) =
      3575 in which one part exceeds 15. */
  lemma DistributionCount(n: nat, s: int, b: int)
    requires n == 5 && s == 25 && b == 16
    ensures |NDigitsSumToS(n, s, b, 0)| == 20176
  {
    DistributionCountValue(n, s, b);
  }

  lemma DistributionCountValue(n: nat, s: int, b: int)
    requires n == 5 && s == 25 && b == 16
    ensures Count(n, s, b) == 20176
  {
    CountBelowTwoBases(n, s, b);
    UnboundedValues(n, s, b);
  }

  /** C(29, 4) = 23751 and C(13, 4) = 715. */
  lemma UnboundedValues(n: nat, s: int, b: int)
    requires n == 5 && s == 25 && b == 16
    ensures Unbounded(n, s) == 23751 && Unbounded(n, s - b) == 715
  {
    UnboundedFive(s, 23751);
    UnboundedFiveNine(s - b, 715);
  }

  lemma UnboundedFive(s: nat, v: nat)
    requires s == 25 && v == 23751
    ensures Unbounded(5, s) == v
  {
    UnboundedClosedForm(s);
    RisingProductAt25(s);
  }

  lemma UnboundedFiveNine(s: nat, v: nat)
    requires s == 9 && v == 715
    ensures Unbounded(5, s) == v
  {
    UnboundedClosedForm(s);
    RisingProductAt9(s);
  }

  lemma RisingProductAt25(s: int)
    requires s == 25
    ensures (s + 1) * (s + 2) * (s + 3) * (s + 4) == 570024
  {
  }

  lemma RisingProductAt9(s: int)
    requires s == 9
    ensures (s + 1) * (s + 2) * (s + 3) * (s + 4) == 17160
  {
  }

  /** The same count for any increasing listing of those distributions,
      such as the one Distributions returns. */
  lemma ListingCount(xs: seq<int>, n: nat, s: int, b: int)
    requires n == 5 && s == 25 && b == 16
    requires forall x :: x in xs <==> HasDigitSum(x, n, s, b)
    requires StrictlyIncreasing(xs)
    ensures |xs| == 20176
  {
    EnumerationUnique(xs, n, s, b);
    DistributionCount(n, s, b);
  }
}
