/** The search at the end of rearrange.js: walk every distribution of 25
    points over five stats, score each against one skill dependency, and
    keep the first one with the highest score. */
module Selection {
  import opened Digits
  import opened Enumerator
  import opened StatMultiplier
  import opened Optimum

  datatype Option<T> = None | Some(value: T)

  /** The score `1/9.8 * Math.log(product) - 0.25` is a strictly increasing
      function of the product; the model takes it as such a function. */
  ghost predicate StrictlyMonotone(score: nat -> real)
  {
    forall p: nat, q: nat :: p < q ==> score(p) < score(q)
  }

  /** The running maximum: `best` starts at 0, and a candidate replaces the
      winner only when its score `m` is strictly greater than `best`. The
      result is the earliest candidate of highest product, provided its score
      is positive; otherwise there is no winner and `best` stays 0. */
  method Select(rearranges: seq<nat>, sk: nat, score: nat -> real) returns (winner: Option<nat>, best: real)
    requires StrictlyMonotone(score)
    ensures best >= 0.0
    ensures forall j :: 0 <= j < |rearranges| ==> score(StatProduct(sk, rearranges[j])) <= best
    ensures winner.None? <==> forall j :: 0 <= j < |rearranges| ==> score(StatProduct(sk, rearranges[j])) <= 0.0
    ensures winner.None? ==> best == 0.0
    ensures winner.Some? ==>
      exists k :: 0 <= k < |rearranges| && rearranges[k] == winner.value &&
        best == score(StatProduct(sk, winner.value)) && best > 0.0 &&
        (forall j :: 0 <= j < |rearranges| ==> StatProduct(sk, rearranges[j]) <= StatProduct(sk, winner.value)) &&
        (forall j :: 0 <= j < k ==> StatProduct(sk, rearranges[j]) < StatProduct(sk, winner.value))
  {
    winner, best := None, 0.0;
    ghost var k := 0;
    for i := 0 to |rearranges|
      invariant best >= 0.0
      invariant forall j :: 0 <= j < i ==> score(StatProduct(sk, rearranges[j])) <= best
      invariant winner.None? ==> best == 0.0 && forall j :: 0 <= j < i ==> score(StatProduct(sk, rearranges[j])) <= 0.0
      invariant winner.Some? ==>
        k < i && rearranges[k] == winner.value && best > 0.0 &&
        best == score(StatProduct(sk, winner.value)) &&
        (forall j :: 0 <= j < i ==> StatProduct(sk, rearranges[j]) <= StatProduct(sk, winner.value)) &&
        (forall j :: 0 <= j < k ==> StatProduct(sk, rearranges[j]) < StatProduct(sk, winner.value))
    {
      var re := rearranges[i];
      var m := score(StatProduct(sk, re));
      if m > best {
        winner, best := Some(re), m;
        k := i;
      }
    }
  }

  /** `const rearranges = nDigitsSumToS(5, 25, 16)`: every distribution of
      25 points over the five stats, at most 15 per stat, in increasing order. */
  method Rearrangements() returns (rearranges: seq<nat>)
    ensures forall x :: x in rearranges <==> HasDigitSum(x, StatCount, 25, Radix)
    ensures StrictlyIncreasing(rearranges)
    ensures |rearranges| == 20176
  {
    rearranges := Distributions(StatCount, 25, Radix);
    ListingCount(rearranges, StatCount, 25, Radix);
  }

  /** The program: select over `rearranges` against the dependency 0x02012.
      The winner is a distribution of highest product, the least such value
      (the generator lists values in increasing order), provided its score is
      positive. */
  method Rearrange(score: nat -> real) returns (winner: Option<nat>, best: real)
    requires StrictlyMonotone(score)
    ensures winner.None? <==>
      forall x: nat :: HasDigitSum(x, StatCount, 25, Radix) ==> score(StatProduct(0x02012, x)) <= 0.0
    ensures winner.None? ==> best == 0.0
    ensures winner.Some? ==>
      HasDigitSum(winner.value, StatCount, 25, Radix) &&
      best == score(StatProduct(0x02012, winner.value)) && best > 0.0 &&
      (forall x: nat :: HasDigitSum(x, StatCount, 25, Radix) ==>
        StatProduct(0x02012, x) <= StatProduct(0x02012, winner.value)) &&
      (forall x: nat :: HasDigitSum(x, StatCount, 25, Radix) && x < winner.value ==>
        StatProduct(0x02012, x) < StatProduct(0x02012, winner.value))
    ensures winner == (if score(1444000) > 0.0 then Some(0xb02c) else None)
    ensures best == (if score(1444000) > 0.0 then score(1444000) else 0.0)
  {
    var rearranges := Rearrangements();
    winner, best := Select(rearranges, 0x02012, score);
    Outcome(score, winner, best);
  }

  /** The outcome of the search, given its general contract: 0xb02c, the
      least distribution of highest product, wins when that product's score
      is positive, and nothing wins otherwise. */
  lemma Outcome(score: nat -> real, winner: Option<nat>, best: real)
    requires StrictlyMonotone(score)
    requires winner.None? <==>
      forall x: nat :: HasDigitSum(x, StatCount, 25, Radix) ==> score(StatProduct(0x02012, x)) <= 0.0
    requires winner.None? ==> best == 0.0
    requires winner.Some? ==>
      HasDigitSum(winner.value, StatCount, 25, Radix) &&
      best == score(StatProduct(0x02012, winner.value)) && best > 0.0 &&
      (forall x: nat :: HasDigitSum(x, StatCount, 25, Radix) ==>
        StatProduct(0x02012, x) <= StatProduct(0x02012, winner.value)) &&
      (forall x: nat :: HasDigitSum(x, StatCount, 25, Radix) && x < winner.value ==>
        StatProduct(0x02012, x) < StatProduct(0x02012, winner.value))
    ensures winner == (if score(1444000) > 0.0 then Some(0xb02c) else None)
    ensures best == (if score(1444000) > 0.0 then score(1444000) else 0.0)
  {
    BestAttained(0x02012, 0xb02c);
    if winner.Some? {
      var w := winner.value;
      BestDistribution(0x02012, w);
      assert StatProduct(0x02012, w) == 1444000;
    } else {
      assert score(StatProduct(0x02012, 0xb02c)) <= 0.0;
    }
  }
}
