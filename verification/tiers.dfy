/** Tier lookup, tick speed and end-of-game reward: pure functions of the score. */
module Tiers {
  import opened GameConfig
  import opened Options

  /** `Array.prototype.find` over `table[i..]`: the index of the first tier
      containing `score`, or `None` when no tier from `i` on contains it. */
  function FindFrom(table: seq<Tier>, score: int, i: nat): (r: Option<nat>)
    requires i <= |table|
    ensures r.Some? ==> i <= r.value < |table| && InTier(table[r.value], score)
    ensures r.Some? ==> forall j :: i <= j < r.value ==> !InTier(table[j], score)
    ensures r.None? ==> forall j :: i <= j < |table| ==> !InTier(table[j], score)
    decreases |table| - i
  {
    if i == |table| then None
    else if InTier(table[i], score) then Some(i)
    else FindFrom(table, score, i + 1)
  }

  /** Index of the current tier: the first match, falling back to the LAST tier. */
  function TierIndex(score: int): (i: nat)
    ensures i < |Tiers|
    ensures InTier(Tiers[i], score) || i == |Tiers| - 1
    ensures forall j :: 0 <= j < i ==> !InTier(Tiers[j], score)
  {
    match FindFrom(Tiers, score, 0)
    case Some(i) => i
    case None => |Tiers| - 1
  }

  function TierOf(score: int): (t: Tier)
    ensures t in Tiers
  {
    Tiers[TierIndex(score)]
  }

  /** The current tier is exactly the first tier of the table containing the
      score; when no tier contains it, it is the last one. */
  lemma TierOfIsFirstMatch(score: int)
    ensures forall j :: 0 <= j < |Tiers| && InTier(Tiers[j], score) ==>
      TierIndex(score) <= j && InTier(TierOf(score), score)
    ensures (forall j :: 0 <= j < |Tiers| ==> !InTier(Tiers[j], score)) ==>
      TierOf(score) == Tiers[|Tiers| - 1]
  {
    var r := FindFrom(Tiers, score, 0);
    if r.None? {
      assert TierIndex(score) == |Tiers| - 1;
    }
  }

  /** Every score at or above the threshold lies in its tier's band, and no
      other tier of the table contains it. */
  lemma TierOfAboveThreshold(score: int)
    requires score >= BaseThreshold
    ensures InTier(TierOf(score), score)
    ensures forall t :: t in Tiers && InTier(t, score) ==> t == TierOf(score)
  {
    var k := if score < 1000 then 0 else if score < 2000 then 1 else if score < 3500 then 2
             else if score < 5000 then 3 else 4;
    assert InTier(Tiers[k], score);
    assert TierIndex(score) <= k;
  }

  /** Any score below the threshold, including 0, resolves to the last tier,
      "Legendary": no tier of the table starts below 500. */
  lemma TierOfBelowThreshold(score: int)
    requires score < BaseThreshold
    ensures TierOf(score) == Tiers[|Tiers| - 1]
    ensures TierOf(score).name == "Legendary"
  {
    assert forall j :: 0 <= j < |Tiers| ==> !InTier(Tiers[j], score);
    TierOfIsFirstMatch(score);
  }

  /** Above the threshold a higher score never resolves to a lower tier. */
  lemma TierOfMonotone(s1: int, s2: int)
    requires BaseThreshold <= s1 <= s2
    ensures TierIndex(s1) <= TierIndex(s2)
    ensures TierOf(s1).minScore <= TierOf(s2).minScore
    ensures TierOf(s1).multiplier <= TierOf(s2).multiplier
    ensures TierOf(s2).speedMultiplier <= TierOf(s1).speedMultiplier
  {
    TierOfAboveThreshold(s1);
    TierOfAboveThreshold(s2);
    TiersWellFormed();
  }

  /** Below the threshold monotonicity fails: score 0 sits in a higher tier than score 500. */
  lemma TierOfNotMonotoneAtThreshold()
    ensures TierOf(0).minScore > TierOf(BaseThreshold).minScore
  {
    TierOfBelowThreshold(0);
    TierOfAboveThreshold(BaseThreshold);
  }

  /** Tick interval in milliseconds for the given score. */
  function Speed(score: int): (ms: real)
    ensures 100.0 <= ms <= 180.0
  {
    InitialSpeed * TierOf(score).speedMultiplier
  }

  /** The interval is the base interval scaled by the tier's speed factor: it
      only shrinks as the score climbs past the threshold, and is at its
      shortest, 100 ms, for every score below the threshold. */
  lemma SpeedByScore(s1: int, s2: int)
    ensures s1 < BaseThreshold ==> Speed(s1) == 100.0
    ensures BaseThreshold <= s1 <= s2 ==> Speed(s2) <= Speed(s1)
    ensures BaseThreshold <= s1 < 1000 ==> Speed(s1) == 180.0
  {
    if s1 < BaseThreshold {
      TierOfBelowThreshold(s1);
    }
    if BaseThreshold <= s1 <= s2 {
      TierOfMonotone(s1, s2);
    }
    if BaseThreshold <= s1 < 1000 {
      TierOfAboveThreshold(s1);
    }
  }

  /** JavaScript's `Math.round`: the nearest integer, halves rounding up. */
  function JsRound(x: real): (n: int)
    ensures x - 0.5 < n as real <= x + 0.5
  {
    (x + 0.5).Floor
  }

  lemma JsRoundMonotone(x: real, y: real)
    requires x <= y
    ensures JsRound(x) <= JsRound(y)
  {
  }

  lemma JsRoundWhole(n: int)
    ensures JsRound(n as real) == n
  {
  }

  /** The unrounded reward: the entry fee times the fraction of the threshold
      scored beyond it, times the tier multiplier. */
  function ExactReward(score: int): real {
    EntryFee * ((score - BaseThreshold) as real / BaseThreshold as real * TierOf(score).multiplier)
  }

  /** `calculateReward`: 0 below the threshold, otherwise the exact reward
      rounded to cents. */
  function Reward(score: int): (r: real)
    ensures score < BaseThreshold ==> r == 0.0
    ensures score >= BaseThreshold ==> 0.0 <= r && ExactReward(score) - 0.005 < r <= ExactReward(score) + 0.005
    ensures (r * 100.0).Floor as real == r * 100.0
  {
    if score < BaseThreshold then 0.0
    else
      var cents := JsRound(ExactReward(score) * 100.0);
      assert ExactReward(score) >= 0.0 by {
        TierOfAboveThreshold(score);
        TiersWellFormed();
      }
      cents as real / 100.0
  }

  /** Monotonicity of products of non-negative reals. */
  lemma MulMonotone(a: real, b: real, c: real, d: real)
    requires 0.0 <= a <= b && 0.0 <= c <= d
    ensures a * c <= b * d
  {
    assert a * c <= b * c;
    assert b * c <= b * d;
  }

  /** In cents, the unrounded reward is the points beyond the threshold times the multiplier. */
  lemma ExactRewardInCents(score: int)
    ensures ExactReward(score) * 100.0 == (score - BaseThreshold) as real * TierOf(score).multiplier
  {
    var d := (score - BaseThreshold) as real;
    var m := TierOf(score).multiplier;
    calc {
      ExactReward(score) * 100.0;
      5.0 * (d / 500.0 * m) * 100.0;
      { assert d / 500.0 * 500.0 == d; }
      d * m;
    }
  }

  /** Above the threshold, the rounded reward in cents never decreases with the score. */
  lemma CentsMonotone(s1: int, s2: int)
    requires BaseThreshold <= s1 <= s2
    ensures JsRound(ExactReward(s1) * 100.0) <= JsRound(ExactReward(s2) * 100.0)
  {
    TierOfMonotone(s1, s2);
    TiersWellFormed();
    TierOfAboveThreshold(s1);
    MulMonotone((s1 - BaseThreshold) as real, (s2 - BaseThreshold) as real,
                TierOf(s1).multiplier, TierOf(s2).multiplier);
    ExactRewardInCents(s1);
    ExactRewardInCents(s2);
    JsRoundMonotone(ExactReward(s1) * 100.0, ExactReward(s2) * 100.0);
  }

  /** The reward never decreases as the score grows: within a tier the
      proportional term grows, and past the threshold the multiplier does too. */
  lemma RewardMonotone(s1: int, s2: int)
    requires s1 <= s2
    ensures Reward(s1) <= Reward(s2)
  {
    if s1 >= BaseThreshold {
      CentsMonotone(s1, s2);
    }
  }

  /** Scores only grow in steps of 10, and for those the proportional formula
      lands on a whole number of cents: rounding changes nothing, and the reward
      is positive exactly when the score is above the threshold. */
  lemma RewardOfWholeScore(score: int)
    requires score >= BaseThreshold && score % 10 == 0
    ensures Reward(score) * 100.0 == (score - BaseThreshold) as real * TierOf(score).multiplier
    ensures Reward(score) > 0.0 <==> score > BaseThreshold
  {
    var k := (score - BaseThreshold) / 10;
    TiersWellFormed();
    var m := TierOf(score).multiplier;
    var t := (m * 10.0).Floor;
    MultipliersInTenths(TierIndex(score));
    assert t as real == m * 10.0 && m >= 1.0;
    assert m == t as real / 10.0;
    assert score - BaseThreshold == 10 * k;
    TenthsScale(k, t);
    ExactRewardInCents(score);
    var cents := k * t;
    assert ExactReward(score) * 100.0 == cents as real;
    JsRoundWhole(cents);
    assert Reward(score) == cents as real / 100.0;
    assert t > 0;
    assert k > 0 <==> cents > 0;
  }

  lemma TenthsScale(k: int, t: int)
    ensures (10 * k) as real * (t as real / 10.0) == (k * t) as real
  {
  }

  /** A few rewards: nothing at the threshold, 7.50 at 1000 points (Apprentice,
      multiplier 1.5) and 225.00 at 5000 points (Legendary, multiplier 5). */
  lemma RewardExamples()
    ensures Reward(0) == 0.0 && Reward(499) == 0.0 && Reward(500) == 0.0
    ensures Reward(510) == 0.12
    ensures Reward(1000) == 7.5
    ensures Reward(5000) == 225.0
  {
    RewardOfWholeScore(500);
    RewardOfWholeScore(510);
    TierOfAboveThreshold(510);
    RewardOfWholeScore(1000);
    TierOfAboveThreshold(1000);
    RewardOfWholeScore(5000);
    TierOfAboveThreshold(5000);
  }
}
