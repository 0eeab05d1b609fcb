# rearrange: a verified model of the stat-rearrangement search

`rearrange.js` looks for the best way to spend 25 stat points across five stats.
A distribution of points is encoded as a five-digit base-16 number: digit i is the number of points put into stat i, and each digit is at most 15.
A skill's dependency is encoded the same way: digit i is the weight of stat i.

The program does three things:

1. It enumerates every distribution with the generator `nDigitsSumToS(5, 25, 16)`.
2. It scores each distribution against the dependency 0x02012 with `statMultiplicator`.
3. It keeps the first distribution with the highest positive score.

The score is `1/9.8 * ln(P) - 0.25` of the integer product

  P = (stat value 0)^w0 * ... * (stat value 4)^w4,

where stat value i is digit i of the distribution plus 8, and wi is digit i of the dependency.

The model has six modules:

- `Arith`: powers, plus the division and remainder facts that the digit proofs need.
- `Digits`: `getDigit` with JavaScript's truncating `%`, the digit sum, reconstruction of a number from its digits, and adding to one digit.
- `Enumerator`: the generator, first as a recursive function and then as a recursive method with a loop over the leading digit. This module proves:
  - the output is sound and complete;
  - the output is strictly increasing;
  - the output is empty exactly in the degenerate cases;
  - the accumulator argument adds an offset;
  - the output length is 20176 for (5, 25, 16).
- `StatMultiplier`: the integer product inside `statMultiplicator`. The product is at least 1, it is constant when the dependency is 0, and it is monotone in each stat.
- `Optimum`: the optimisation for the dependency 0x02012. The product is at most 1444000, and only 0xb02c and 0xc02b reach it.
- `Selection`: the running-maximum loop, and the program from line 26 to line 35.

The generator yields C(29, 4) − 5 · C(13, 4) = 20176 distributions for (5, 25, 16), not C(29, 4) = 23751. The loop guard `d < b` caps each digit at 15, which removes the 3575 ways in which one stat would get 16 or more points. The model follows the code.

The whole program is proved to end with `winner == 0xb02c`, printed as `b02c`, when the score of 1444000 is positive. Otherwise it ends with no winner. The actual score `ln(1444000) / 9.8 - 0.25` is about 1.2, but the model does not evaluate logarithms.

## Model

| member | source | states |
|---|---|---|
| Digits.JsMod | rearrange.js:15 | JavaScript's `%`: with a non-negative dividend the result is in [0, m); with a negative dividend it is in (−m, 0]. The dividend minus the result is a multiple of m. |
| Digits.GetDigit | rearrange.js:14-16 | For n ≥ 0 the digit is in [0, b); for n < 0 it is in (−b, 0]. |
| Digits.GetDigitLow | rearrange.js:14-16 | Digit 0 of b·r + d is d, for 0 ≤ d < b and r ≥ 0. |
| Digits.GetDigitNext | rearrange.js:14-16 | Digit p + 1 of b·r + d is digit p of r, for 0 ≤ d < b. |
| Digits.ReconstructMod | rearrange.js:14-16 | The sum of digit i times b^i over i < n equals x mod b^n, for x ≥ 0. |
| Digits.ReconstructRoundTrip | rearrange.js:14-16 | That sum equals x itself, for 0 ≤ x < b^n. |
| Digits.AddToDigit | rearrange.js:14-16 | Adding k·b^i to x, with no carry, raises digit i by k and leaves every other digit unchanged. |
| Enumerator.Enumerate | rearrange.js:2-11 | The generator as a recursive method with a `while` loop over d under the guard `d < b && s - d >= 0`. Its output equals NDigitsSumToS(n, s, b, res). |
| Enumerator.Soundness | rearrange.js:2-11 | With res = 0, every output is below b^n and its n digits sum to s. |
| Enumerator.Completeness | rearrange.js:2-11 | With res = 0, every x below b^n whose n digits sum to s is an output. |
| Enumerator.Increasing | rearrange.js:7-8 | With res = 0, the output is strictly increasing, so no value is yielded twice. |
| Enumerator.EnumerationCorrect | rearrange.js:2-11 | x is an output if and only if x is an n-digit base-b number with digit sum s; the output is strictly increasing. |
| Enumerator.EnumerationUnique | rearrange.js:2-11 | Any strictly increasing listing of exactly those numbers is the generator's output. |
| Enumerator.Distributions | rearrange.js:2-11 | The call with `res` left at its default 0 returns naturals with the membership and ordering of EnumerationCorrect. |
| Enumerator.EmptyCases | rearrange.js:3-8 | The output is empty if and only if s < 0, or n < 0, or n == 0 with s != 0, or s > (b − 1)·n. |
| Enumerator.Accumulator | rearrange.js:2-8 | The output for res is the output for res = 0 with res·b^n added to each value, in the same order; for n == 0 and s == 0 it is [res]. |
| Enumerator.NDigitsSumToS | rearrange.js:2-11 | The generator, everything it yields in order. The number of values it yields is Count(n, s, b), which does not depend on the accumulator `res`. |
| Enumerator.DigitLoop | rearrange.js:7-9 | The `for` loop over the leading digit d from a given d on, under the guard `d < b && s - d >= 0`. The number of values it yields is CountLoop(n, s, b, d), which does not depend on `res`. |
| Enumerator.CountSlide | rearrange.js:7 | Count(n, s) = Count(n, s − 1) + Count(n − 1, s), minus Count(n − 1, s − b) when s ≥ b. The minus term is the leading digit b that the guard `d < b` excludes. |
| Enumerator.CountBelowTwoBases | rearrange.js:7 | For s < 2b, inclusion and exclusion relate the capped count to the uncapped count: Unbounded(n, s) − n·Unbounded(n, s − b). |
| Enumerator.UnboundedClosedForm | rearrange.js:7 | For up to 5 digits, the uncapped count is C(s + n − 1, n − 1). |
| Enumerator.DistributionCount | rearrange.js:26 | `nDigitsSumToS(5, 25, 16)` yields 20176 values. |
| Enumerator.ListingCount | rearrange.js:26 | Any increasing listing of the 5-digit base-16 numbers with digit sum 25 has 20176 elements. |
| StatMultiplier.Factor | rearrange.js:21 | The factor `(getDigit(re, i, 16) + 8) ** getDigit(sk, i, 16)` is at least 1, and is 1 when the weight is 0. |
| StatMultiplier.Factors | rearrange.js:20-21 | The `Array.from({length: 5}, ...)` of factors: five entries, each at least 1, and entry i is 1 when stat i has weight 0. |
| StatMultiplier.Product | rearrange.js:22 | The `reduce` product of factors that are all at least 1 is at least 1. |
| StatMultiplier.StatProduct | rearrange.js:20-22 | The product is at least 1, so `Math.log` of it is defined and not negative. |
| StatMultiplier.ZeroDependency | rearrange.js:20-22 | With sk == 0 the product is 1, whatever the distribution. |
| StatMultiplier.ProductCompare | rearrange.js:22 | Two factor lists that differ at one position compare at that position; their products compare in the same way, strictly or equal. |
| StatMultiplier.RaiseStat | rearrange.js:20-22 | Raising stat i and keeping the other stats makes the product strictly larger when stat i has weight > 0, and leaves it unchanged when the weight is 0. |
| StatMultiplier.AddPoints | rearrange.js:21 | Adding k points to stat i, keeping it at most 15, changes only digit i, which rises by k. |
| StatMultiplier.OneMorePoint | rearrange.js:20-22 | One more point in stat i, that is +16^i, raises the product exactly when the weight of stat i is > 0; otherwise the product is unchanged. |
| Optimum.DependencyDigits | rearrange.js:30 | The dependency 0x02012 has weights 2, 1, 0, 2, 0 on stats 0 to 4. |
| Optimum.DependencyProduct | rearrange.js:20-22 | Against 0x02012 the product is a²·c·e², where a, c and e are the values of stats 0, 1 and 3. |
| Optimum.DistributionDigits | rearrange.js:26 | The five digits of a distribution sum to 25 and spell its value in base 16. |
| Optimum.ProductMax | rearrange.js:20-30 | Five point counts of at most 15 that sum to 25 give a²·c·e² ≤ 1444000. Equality holds only at (12, 2, 0, 11, 0) and (11, 2, 0, 12, 0). |
| Optimum.BestDistribution | rearrange.js:26-30 | Every distribution has product at most 1444000 against 0x02012. Only 0xb02c and 0xc02b reach it. |
| Optimum.BestAttained | rearrange.js:26-30 | 0xb02c is a distribution of 25 points with product 1444000. |
| Selection.Select | rearrange.js:27-35 | The loop that keeps `winner` and `best`. `best` ≥ 0, and also ≥ the score of every candidate. There is no winner if and only if no score is positive, and then best == 0. Otherwise the winner is a candidate of highest product, with best equal to its positive score, and every earlier candidate has a strictly smaller product. |
| Selection.Rearrangements | rearrange.js:26 | `rearranges` holds exactly the 5-digit base-16 numbers with digit sum 25, in strictly increasing order, 20176 of them. |
| Selection.Rearrange | rearrange.js:26-35 | The program's search. A winner exists if and only if some distribution has a positive score. The winner is a distribution of highest product with `best` equal to its score, and no smaller distribution reaches that product. The winner is 0xb02c when the score of 1444000 is positive, and there is none otherwise. |
| Selection.Outcome | rearrange.js:26-36 | From the search's contract and the optimum: the winner is 0xb02c and best is the score of 1444000 when that score is positive; otherwise there is no winner and best is 0. |

## Left out

- The request for `skills.json` and its `onload` callback (`rearrange.js:39-47`): network I/O that runs asynchronously, with no result used by the search.
- The two `console.log` calls and the `toString(16)` formatting (`rearrange.js:36-37`): output only. When there is no winner, `winner.toString(16)` would throw on `undefined`; the model returns `None` instead.
- The floating-point step `1/9.8 * Math.log(product) - 0.25` (`rearrange.js:23`). It is a parameter `score: nat -> real` that is assumed strictly increasing, not a logarithm with IEEE rounding.
- Selection.Rearrange: the result is conditional on `score(1444000) > 0.0`, because the model does not evaluate the logarithm.
- StatMultiplier.StatProduct: the model computes the exact product with unbounded integers. JavaScript doubles are exact only below 2^53, and large weights can exceed that. For the dependency 0x02012 every product is at most 1444000, so nothing is lost there.
- Digits.GetDigit: requires b ≥ 1. For b == 0, `0 ** p` is 0 for p > 0 and the division gives Infinity or NaN (and `% 0` is NaN), which integers cannot represent. For b < 0, JavaScript gives finite integers: `b ** p` alternates in sign and `%` takes the sign of the dividend, so `getDigit(5, 0, -2)` is `5 % -2 == 1`. The model does not cover negative bases. Non-integer arguments are not modelled either.
- Digits.GetDigit and Enumerator.NDigitsSumToS: the model computes with exact unbounded integers. JavaScript numbers are doubles, so `b * res + d` and `n / b ** p` are exact only while b^n ≤ 2^53. Past that bound, sums round and the JavaScript output can be unsound: in `nDigitsSumToS(15, 2, 16)`, 16^14 + 1 rounds to 16^14, whose digit sum is 1. Soundness, Completeness and Increasing hold for the exact model, not for those JavaScript calls. The program's own call (5, 25, 16) stays below 2^20, so it is not affected. Non-integer arguments are not modelled.
- Enumerator.NDigitsSumToS: the generator is lazy, and `for…of` pulls values one at a time. The model produces the whole sequence at once, so the order of element production relative to scoring is not modelled. The order and the contents are the same.
