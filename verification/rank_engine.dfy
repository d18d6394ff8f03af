/**
 * The rank and EXP engine of the AFK reward bot: the reward for an AFK
 * session, the rank a total EXP earns, and the next rank to aim for.
 *
 * The rank configuration is an explicit parameter (the bot re-reads it from
 * its configuration file on every call).
 */
module RankEngine {
  import opened Wrappers
  import opened Orders

  /** A rank tier: display name, EXP threshold and display colour. */
  datatype Tier = Tier(name: string, minExp: int, color: string)

  /** EXP per minute of AFK time and the most one session can earn. */
  datatype ExpRate = ExpRate(basePerMinute: int, maxPerSession: int)

  datatype RankConfig = RankConfig(ranks: seq<Tier>, rate: ExpRate)

  /** The tier reported when the configuration has no tiers at all. */
  const Unranked := Tier("Unranked", 0, "#95a5a6")

  /** What the bot falls back to when its configuration file is missing or unreadable. */
  const DefaultConfig := RankConfig([], ExpRate(1, 100))

  function MinExp(t: Tier): int {
    t.minExp
  }

  // ---------------------------------------------------------------------------
  // EXP reward

  /** `q` is `a / b` rounded toward zero, as Python's `int()` rounds a quotient. */
  ghost predicate IsTruncatedQuotient(q: int, a: int, b: int)
    requires b > 0
  {
    if a >= 0 then b * q <= a < b * (q + 1) else b * (q - 1) < a <= b * q
  }

  function TruncDiv(a: int, b: int): (q: int)
    requires b > 0
    ensures IsTruncatedQuotient(q, a, b)
  {
    if a >= 0 then a / b else -((-a) / b)
  }

  lemma TruncatedQuotientUnique(q: int, q': int, a: int)
    requires IsTruncatedQuotient(q, a, 60) && IsTruncatedQuotient(q', a, 60)
    ensures q == q'
  {
  }

  /**
   * `calculate_exp_reward`: the elapsed minutes times the rate, truncated to
   * an integer, then capped at the per-session maximum. There is no lower
   * bound: a negative elapsed time gives a negative reward.
   */
  function ExpReward(elapsedSeconds: int, rate: ExpRate): (reward: int)
    ensures reward <= rate.maxPerSession
    ensures forall q :: IsTruncatedQuotient(q, elapsedSeconds * rate.basePerMinute, 60) ==>
              reward == if q < rate.maxPerSession then q else rate.maxPerSession
  {
    var earned := TruncDiv(elapsedSeconds * rate.basePerMinute, 60);
    forall q | IsTruncatedQuotient(q, elapsedSeconds * rate.basePerMinute, 60)
      ensures q == earned
    {
      TruncatedQuotientUnique(q, earned, elapsedSeconds * rate.basePerMinute);
    }
    if earned < rate.maxPerSession then earned else rate.maxPerSession
  }

  lemma TruncDivMonotone(a: int, a': int)
    requires a <= a'
    ensures TruncDiv(a, 60) <= TruncDiv(a', 60)
  {
    var q, q' := TruncDiv(a, 60), TruncDiv(a', 60);
    if a >= 0 {
      assert 60 * q <= a <= a' < 60 * (q' + 1);
    } else if a' < 0 {
      assert 60 * (q - 1) < a <= a' <= 60 * q';
    } else {
      assert q <= 0 <= q';
    }
  }

  /**
   * With a non-negative rate, a longer AFK session never earns less, and a
   * session of non-negative length earns nothing negative when the cap is
   * non-negative.
   */
  lemma RewardMonotone(s: int, s': int, rate: ExpRate)
    requires s <= s' && rate.basePerMinute >= 0
    ensures ExpReward(s, rate) <= ExpReward(s', rate)
    ensures 0 <= s && 0 <= rate.maxPerSession ==> 0 <= ExpReward(s, rate)
  {
    assert s * rate.basePerMinute <= s' * rate.basePerMinute by {
      assert (s' - s) * rate.basePerMinute >= 0;
    }
    TruncDivMonotone(s * rate.basePerMinute, s' * rate.basePerMinute);
    if 0 <= s {
      assert s * rate.basePerMinute >= 0;
      TruncDivMonotone(0, s * rate.basePerMinute);
    }
  }

  /** A start time in the future (clock skew) costs EXP: the reward is not clamped at zero. */
  lemma RewardNotClampedAtZero()
    ensures ExpReward(-120, DefaultConfig.rate) == -2
  {
  }

  /** The minute counts of the bot's own test script, under the default rate of 1 per minute capped at 100. */
  lemma RewardExamples()
    ensures ExpReward(60, DefaultConfig.rate) == 1
    ensures ExpReward(30 * 60, DefaultConfig.rate) == 30
    ensures ExpReward(60 * 60, DefaultConfig.rate) == 60
    ensures ExpReward(120 * 60, DefaultConfig.rate) == 100
    ensures ExpReward(59, DefaultConfig.rate) == 0
  {
  }

  // ---------------------------------------------------------------------------
  // Current rank

  /** Some tier's threshold is within reach of `exp`. */
  ghost predicate Reaches(ranks: seq<Tier>, exp: int) {
    exists t :: t in ranks && t.minExp <= exp
  }

  /** Index of the first tier whose threshold `exp` reaches (the scan of `get_user_rank`). */
  function FirstReached(tiers: seq<Tier>, exp: int): (i: nat)
    ensures i <= |tiers|
    ensures forall j :: 0 <= j < i ==> exp < tiers[j].minExp
    ensures i < |tiers| ==> tiers[i].minExp <= exp
  {
    if tiers == [] then 0
    else if exp >= tiers[0].minExp then 0
    else 1 + FirstReached(tiers[1..], exp)
  }

  /**
   * `get_user_rank`: the tiers sorted by threshold, highest first (a stable
   * sort), the first one `exp` reaches; failing that the last of the sorted
   * list; and `Unranked` when there are no tiers.
   */
  function UserRank(ranks: seq<Tier>, exp: int): (r: Tier)
    ensures ranks == [] ==> r == Unranked
    ensures ranks != [] ==> r in ranks
  {
    var sorted := SortBy(ranks, MinExp, true);
    SameElements(ranks, true);
    var i := FirstReached(sorted, exp);
    if i < |sorted| then sorted[i]
    else if sorted == [] then Unranked
    else sorted[|sorted| - 1]
  }

  lemma SameElements(s: seq<Tier>, descending: bool)
    ensures forall t :: t in SortBy(s, MinExp, descending) <==> t in s
  {
    var sorted := SortBy(s, MinExp, descending);
    SortPermutes(s, MinExp, descending);
    assert forall t :: t in sorted <==> t in multiset(sorted);
    assert forall t :: t in s <==> t in multiset(s);
  }

  /**
   * When some threshold is reached, the rank is the tier with the greatest
   * threshold `exp` reaches; among tiers sharing that threshold it is the
   * first in configuration order.
   */
  lemma UserRankHighestReached(ranks: seq<Tier>, exp: int)
    requires Reaches(ranks, exp)
    ensures UserRank(ranks, exp).minExp <= exp
    ensures forall t :: t in ranks && t.minExp <= exp ==> t.minExp <= UserRank(ranks, exp).minExp
    ensures WithKey(ranks, MinExp, UserRank(ranks, exp).minExp) != []
    ensures UserRank(ranks, exp) == WithKey(ranks, MinExp, UserRank(ranks, exp).minExp)[0]
  {
    var sorted := SortBy(ranks, MinExp, true);
    SameElements(ranks, true);
    SortSorted(ranks, MinExp, true);
    var i := FirstReached(sorted, exp);
    var w :| w in ranks && w.minExp <= exp;
    var wi :| 0 <= wi < |sorted| && sorted[wi] == w;
    assert i <= wi;
    var r := sorted[i];
    assert UserRank(ranks, exp) == r;
    forall t | t in ranks && t.minExp <= exp
      ensures t.minExp <= r.minExp
    {
      var ti :| 0 <= ti < |sorted| && sorted[ti] == t;
      SortedPair(sorted, MinExp, true, i, ti);
    }
    WithKeyFirst(sorted, MinExp, i);
    SortKeepsTies(ranks, MinExp, true, r.minExp);
  }

  lemma {:induction false} NoneReached(tiers: seq<Tier>, exp: int)
    requires forall t :: t in tiers ==> exp < t.minExp
    ensures FirstReached(tiers, exp) == |tiers|
  {
    if tiers != [] {
      assert tiers[0] in tiers;
      assert forall t :: t in tiers[1..] ==> t in tiers;
      NoneReached(tiers[1..], exp);
    }
  }

  /**
   * When `exp` is below every threshold, the rank is a tier with the lowest
   * threshold; among tiers sharing it, the last in configuration order.
   */
  lemma UserRankBelowEveryThreshold(ranks: seq<Tier>, exp: int)
    requires ranks != [] && !Reaches(ranks, exp)
    ensures exp < UserRank(ranks, exp).minExp
    ensures forall t :: t in ranks ==> UserRank(ranks, exp).minExp <= t.minExp
    ensures WithKey(ranks, MinExp, UserRank(ranks, exp).minExp) != []
    ensures UserRank(ranks, exp) == Last(WithKey(ranks, MinExp, UserRank(ranks, exp).minExp))
  {
    var sorted := SortBy(ranks, MinExp, true);
    SameElements(ranks, true);
    SortSorted(ranks, MinExp, true);
    var n := |sorted|;
    NoneReached(sorted, exp);
    var r := sorted[n - 1];
    assert UserRank(ranks, exp) == r;
    forall t | t in ranks
      ensures r.minExp <= t.minExp
    {
      var ti :| 0 <= ti < n && sorted[ti] == t;
      SortedPair(sorted, MinExp, true, ti, n - 1);
    }
    WithKeyLast(sorted, MinExp, n - 1);
    SortKeepsTies(ranks, MinExp, true, r.minExp);
  }

  /** More EXP never means a tier with a lower threshold. */
  lemma UserRankMonotone(ranks: seq<Tier>, exp: int, exp': int)
    requires exp <= exp'
    ensures UserRank(ranks, exp).minExp <= UserRank(ranks, exp').minExp
  {
    if ranks != [] {
      var r, r' := UserRank(ranks, exp), UserRank(ranks, exp');
      if Reaches(ranks, exp) {
        UserRankHighestReached(ranks, exp);
        assert Reaches(ranks, exp') by { assert r in ranks && r.minExp <= exp'; }
        UserRankHighestReached(ranks, exp');
      } else {
        UserRankBelowEveryThreshold(ranks, exp);
      }
    }
  }

  /** The tier list the bot's test script expects, in order; their colours play no part. */
  ghost predicate IsSampleConfig(ranks: seq<Tier>) {
    && |ranks| == 7
    && ranks[0].name == "Newbie" && ranks[0].minExp == 0
    && ranks[1].name == "Regular" && ranks[1].minExp == 100
    && ranks[2].name == "Active" && ranks[2].minExp == 500
    && ranks[3].name == "Veteran" && ranks[3].minExp == 1500
    && ranks[4].name == "Expert" && ranks[4].minExp == 3000
    && ranks[5].name == "Master" && ranks[5].minExp == 5000
    && ranks[6].name == "Legend" && ranks[6].minExp == 10000
  }

  /** A reached tier that no other tier ties and no higher reached threshold beats is the rank. */
  lemma UserRankByThreshold(ranks: seq<Tier>, exp: int, i: nat)
    requires i < |ranks| && ranks[i].minExp <= exp
    requires forall j :: 0 <= j < |ranks| && ranks[j].minExp <= exp ==> ranks[j].minExp <= ranks[i].minExp
    requires forall j :: 0 <= j < |ranks| && j != i ==> ranks[j].minExp != ranks[i].minExp
    ensures UserRank(ranks, exp) == ranks[i]
  {
    UserRankHighestReached(ranks, exp);
    var r := UserRank(ranks, exp);
    var k :| 0 <= k < |ranks| && ranks[k] == r;
    assert ranks[i] in ranks;
  }

  /** EXP totals and rank names of the bot's own test script, lower tiers. */
  lemma UserRankExamplesLow(ranks: seq<Tier>)
    requires IsSampleConfig(ranks)
    ensures UserRank(ranks, 0).name == "Newbie"
    ensures UserRank(ranks, 50).name == "Newbie"
    ensures UserRank(ranks, 100).name == "Regular"
  {
    UserRankByThreshold(ranks, 0, 0);
    UserRankByThreshold(ranks, 50, 0);
    UserRankByThreshold(ranks, 100, 1);
  }

  /** EXP totals and rank names of the bot's own test script, middle tiers. */
  lemma UserRankExamplesMiddle(ranks: seq<Tier>)
    requires IsSampleConfig(ranks)
    ensures UserRank(ranks, 500).name == "Active"
    ensures UserRank(ranks, 1500).name == "Veteran"
    ensures UserRank(ranks, 3000).name == "Expert"
  {
    UserRankByThreshold(ranks, 500, 2);
    UserRankByThreshold(ranks, 1500, 3);
    UserRankByThreshold(ranks, 3000, 4);
  }

  /** EXP totals and rank names of the bot's own test script, top tiers. */
  lemma UserRankExamplesHigh(ranks: seq<Tier>)
    requires IsSampleConfig(ranks)
    ensures UserRank(ranks, 5000).name == "Master"
    ensures UserRank(ranks, 10000).name == "Legend"
    ensures UserRank(ranks, 99999).name == "Legend"
  {
    UserRankByThreshold(ranks, 5000, 5);
    UserRankByThreshold(ranks, 10000, 6);
    UserRankByThreshold(ranks, 99999, 6);
  }

  // ---------------------------------------------------------------------------
  // Next rank

  /** `t` is a tier with the smallest threshold above `exp`. */
  ghost predicate IsNextRank(ranks: seq<Tier>, exp: int, t: Tier) {
    && t in ranks
    && exp < t.minExp
    && forall u :: u in ranks && exp < u.minExp ==> t.minExp <= u.minExp
  }

  /**
   * The next-rank search of the `exp` command: the tiers sorted by threshold,
   * lowest first (a stable sort), and the first one above `exp`. None means
   * the maximum rank is achieved.
   */
  method FindNextRank(ranks: seq<Tier>, exp: int) returns (next: Option<Tier>)
    ensures next.None? <==> forall t :: t in ranks ==> t.minExp <= exp
    ensures next.Some? ==> IsNextRank(ranks, exp, next.value)
    ensures next.Some? ==> WithKey(ranks, MinExp, next.value.minExp) != []
    ensures next.Some? ==> next.value == WithKey(ranks, MinExp, next.value.minExp)[0]
  {
    var sorted := SortBy(ranks, MinExp, false);
    SameElements(ranks, false);
    SortSorted(ranks, MinExp, false);
    next := None;
    var i := 0;
    while i < |sorted|
      invariant 0 <= i <= |sorted|
      invariant next.None?
      invariant forall j :: 0 <= j < i ==> sorted[j].minExp <= exp
    {
      if sorted[i].minExp > exp {
        next := Some(sorted[i]);
        break;
      }
      i := i + 1;
    }
    if next.Some? {
      var t := sorted[i];
      assert next.value == t;
      forall u | u in ranks && exp < u.minExp
        ensures t.minExp <= u.minExp
      {
        var ui :| 0 <= ui < |sorted| && sorted[ui] == u;
        SortedPair(sorted, MinExp, false, i, ui);
      }
      WithKeyFirst(sorted, MinExp, i);
      SortKeepsTies(ranks, MinExp, false, t.minExp);
    } else {
      forall t | t in ranks
        ensures t.minExp <= exp
      {
        var ti :| 0 <= ti < |sorted| && sorted[ti] == t;
      }
    }
  }

  /**
   * Current and next rank: once a threshold is reached the next rank lies
   * strictly above the current one; below every threshold, the lowest tier
   * is both the current rank and a next rank.
   */
  lemma CurrentAndNextRank(ranks: seq<Tier>, exp: int, next: Tier)
    requires IsNextRank(ranks, exp, next)
    ensures Reaches(ranks, exp) ==> UserRank(ranks, exp).minExp < next.minExp
    ensures !Reaches(ranks, exp) ==> IsNextRank(ranks, exp, UserRank(ranks, exp))
    ensures UserRank(ranks, exp).minExp <= next.minExp
  {
    if Reaches(ranks, exp) {
      UserRankHighestReached(ranks, exp);
    } else {
      UserRankBelowEveryThreshold(ranks, exp);
    }
  }
}
