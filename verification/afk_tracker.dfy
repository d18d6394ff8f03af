/**
 * The AFK session tracker of the bot: who is away (`afk_users`), how much EXP
 * each member has (`user_exp`), the return from AFK that turns time away into
 * EXP, the `afk` command, the `exp` command and the `top` leaderboard.
 *
 * The bot keeps both maps in a JSON file it re-reads on every event; here they
 * are the fields of one `Tracker` object. Time is an integer count of seconds
 * passed in by the caller, and the rank configuration is a parameter.
 */
module AfkTracker {
  import opened Wrappers
  import opened Orders
  import opened RankEngine
  import opened Duration

  /** A member's id, as the string the bot stores it under. */
  type UserId = string

  /** An `afk_users` record: the away message, the start time and the display name. */
  datatype AfkInfo = AfkInfo(message: string, timestamp: int, userName: string)

  /** One row of `user_exp.items()`. */
  datatype Entry = Entry(user: UserId, exp: int)

  /** What the welcome-back message reports. */
  datatype Welcome = Welcome(elapsedSeconds: int, duration: string, reward: int, totalExp: int, rank: Tier)

  /** What the `exp` command reports: EXP, current rank, and the next rank if any. */
  datatype ExpStatus = ExpStatus(exp: int, rank: Tier, next: Option<Tier>)

  /** The away message stored when the `afk` command is given none. */
  const NoMessageSet := "No message set"

  /** How many rows the leaderboard shows. */
  const LeaderboardSize := 10

  function EntryExp(e: Entry): int {
    e.exp
  }

  predicate Distinct(s: seq<UserId>) {
    forall i, j :: 0 <= i < j < |s| ==> s[i] != s[j]
  }

  // ---------------------------------------------------------------------------
  // Returning from AFK

  /**
   * The welcome-back report for a member who went AFK as `info` and had
   * `previousExp` EXP: the time away, its rendering, the reward, the new total
   * and the rank that total earns.
   */
  function WelcomeFor(info: AfkInfo, previousExp: int, now: int, config: RankConfig): Welcome {
    var elapsed := now - info.timestamp;
    var reward := ExpReward(elapsed, config.rate);
    var total := previousExp + reward;
    Welcome(elapsed, FormatDuration(elapsed), reward, total, UserRank(config.ranks, total))
  }

  /**
   * What a return credits: exactly the capped reward for the time away,
   * added to the member's EXP, with the message's duration reading back as
   * that time. When the clock did not run backwards and the rate and cap are
   * not negative, the total does not fall and the member's rank is never
   * lowered.
   */
  lemma ReturnCredit(info: AfkInfo, previousExp: int, now: int, config: RankConfig)
    ensures var w := WelcomeFor(info, previousExp, now, config);
      && w.elapsedSeconds == now - info.timestamp
      && w.reward == ExpReward(w.elapsedSeconds, config.rate)
      && w.totalExp == previousExp + w.reward
      && w.reward <= config.rate.maxPerSession
      && w.rank == UserRank(config.ranks, w.totalExp)
    ensures info.timestamp <= now ==>
      && ParseDuration(WelcomeFor(info, previousExp, now, config).duration).Some?
      && Denotes(ParseDuration(WelcomeFor(info, previousExp, now, config).duration).value) <= now - info.timestamp
    ensures info.timestamp <= now && 0 <= config.rate.basePerMinute && 0 <= config.rate.maxPerSession ==>
      && previousExp <= WelcomeFor(info, previousExp, now, config).totalExp
      && UserRank(config.ranks, previousExp).minExp <= WelcomeFor(info, previousExp, now, config).rank.minExp
  {
    var w := WelcomeFor(info, previousExp, now, config);
    if info.timestamp <= now {
      FormatDurationReadsBack(now - info.timestamp);
      if 0 <= config.rate.basePerMinute && 0 <= config.rate.maxPerSession {
        RewardMonotone(now - info.timestamp, now - info.timestamp, config.rate);
        UserRankMonotone(config.ranks, previousExp, w.totalExp);
      }
    }
  }

  // ---------------------------------------------------------------------------
  // Leaderboard

  /** `user_exp.items()` for the keys listed in `order`, in that order. */
  function EntriesOf(order: seq<UserId>, m: map<UserId, int>): (items: seq<Entry>)
    requires forall u :: u in order ==> u in m
    ensures |items| == |order|
    ensures forall i :: 0 <= i < |order| ==> items[i].user == order[i] && items[i].exp == m[order[i]]
  {
    if order == [] then [] else [Entry(order[0], m[order[0]])] + EntriesOf(order[1..], m)
  }

  /** `sorted(items, key=lambda x: x[1], reverse=True)[:10]`. */
  function TopEntries(items: seq<Entry>): (top: seq<Entry>)
    ensures |top| == if |items| < LeaderboardSize then |items| else LeaderboardSize
  {
    var sorted := SortBy(items, EntryExp, true);
    sorted[..if |sorted| < LeaderboardSize then |sorted| else LeaderboardSize]
  }

  /** Every row is one of the items, and with ten items or fewer every item is a row. */
  lemma TopEntriesRows(items: seq<Entry>)
    ensures forall e :: e in TopEntries(items) ==> e in items
    ensures |items| <= LeaderboardSize ==> multiset(TopEntries(items)) == multiset(items)
  {
    var sorted := SortBy(items, EntryExp, true);
    SortPermutes(items, EntryExp, true);
    var top := TopEntries(items);
    forall e | e in top
      ensures e in items
    {
      assert e in multiset(sorted);
    }
    if |items| <= LeaderboardSize {
      assert top == sorted;
    }
  }

  /** EXP does not increase down the leaderboard. */
  lemma TopEntriesOrdered(items: seq<Entry>)
    ensures Sorted(TopEntries(items), EntryExp, true)
  {
    var sorted := SortBy(items, EntryExp, true);
    SortSorted(items, EntryExp, true);
    var top := TopEntries(items);
    forall i, j | 0 <= i < j < |top|
      ensures InOrder(EntryExp(top[i]), EntryExp(top[j]), true)
    {
      SortedPair(sorted, EntryExp, true, i, j);
    }
  }

  /** An item left off the leaderboard has no more EXP than any row on it. */
  lemma TopEntriesAreTop(items: seq<Entry>)
    ensures forall e, t :: e in items && e !in TopEntries(items) && t in TopEntries(items) ==> e.exp <= t.exp
  {
    var sorted := SortBy(items, EntryExp, true);
    SortPermutes(items, EntryExp, true);
    SortSorted(items, EntryExp, true);
    var top := TopEntries(items);
    var n := |top|;
    assert forall i :: 0 <= i < n ==> sorted[i] in top;
    forall e, t | e in items && e !in top && t in top
      ensures e.exp <= t.exp
    {
      assert e in multiset(sorted);
      var k :| 0 <= k < |sorted| && sorted[k] == e;
      var j :| 0 <= j < n && top[j] == t;
      assert n <= k;
      SortedPair(sorted, EntryExp, true, j, k);
    }
  }

  /** Rows with equal EXP appear in the order the items list them (the sort is stable). */
  lemma TopEntriesKeepTies(items: seq<Entry>, v: int)
    ensures WithKey(TopEntries(items), EntryExp, v) <= WithKey(items, EntryExp, v)
  {
    var sorted := SortBy(items, EntryExp, true);
    WithKeyOfPrefix(sorted, EntryExp, v, |TopEntries(items)|);
    SortKeepsTies(items, EntryExp, true, v);
  }

  lemma {:induction false} DistinctSetSize(s: seq<UserId>)
    requires Distinct(s)
    ensures |(set u | u in s)| == |s|
  {
    if s != [] {
      assert Distinct(s[1..]);
      DistinctSetSize(s[1..]);
      assert (set u | u in s) == {s[0]} + (set u | u in s[1..]);
      assert s[0] !in (set u | u in s[1..]);
    }
  }

  /** A distinct key order covering the map lists one entry per key. */
  lemma EntriesOfSize(order: seq<UserId>, m: map<UserId, int>)
    requires Distinct(order)
    requires forall u :: u in m <==> u in order
    ensures |EntriesOf(order, m)| == |m|
  {
    DistinctSetSize(order);
    assert m.Keys == set u | u in order;
  }

  /** The entries listed in a key order covering the map are exactly the map's entries. */
  lemma EntriesOfMap(order: seq<UserId>, m: map<UserId, int>)
    requires forall u :: u in m <==> u in order
    ensures forall u :: u in m ==> Entry(u, m[u]) in EntriesOf(order, m)
    ensures forall e :: e in EntriesOf(order, m) ==> e.user in m && m[e.user] == e.exp
  {
    var items := EntriesOf(order, m);
    forall u | u in m
      ensures Entry(u, m[u]) in items
    {
      var i :| 0 <= i < |order| && order[i] == u;
      assert items[i] == Entry(u, m[u]);
    }
    forall e | e in items
      ensures e.user in m && m[e.user] == e.exp
    {
      var i :| 0 <= i < |items| && items[i] == e;
    }
  }

  /** The leaderboard facts for the map `m` whose keys `order` lists once each. */
  lemma LeaderboardOfMap(order: seq<UserId>, m: map<UserId, int>)
    requires Distinct(order)
    requires forall u :: u in m <==> u in order
    ensures var top := TopEntries(EntriesOf(order, m));
      && |top| == (if |m| < LeaderboardSize then |m| else LeaderboardSize)
      && (forall e :: e in top ==> e.user in m && m[e.user] == e.exp)
      && Sorted(top, EntryExp, true)
      && (forall u, e :: u in m && Entry(u, m[u]) !in top && e in top ==> m[u] <= e.exp)
      && (forall v :: WithKey(top, EntryExp, v) <= WithKey(EntriesOf(order, m), EntryExp, v))
  {
    var items := EntriesOf(order, m);
    var top := TopEntries(items);
    assert |top| == if |m| < LeaderboardSize then |m| else LeaderboardSize by {
      EntriesOfSize(order, m);
    }
    assert forall e :: e in top ==> e.user in m && m[e.user] == e.exp by {
      EntriesOfMap(order, m);
      TopEntriesRows(items);
    }
    assert Sorted(top, EntryExp, true) by {
      TopEntriesOrdered(items);
    }
    assert forall u, e :: u in m && Entry(u, m[u]) !in top && e in top ==> m[u] <= e.exp by {
      EntriesOfMap(order, m);
      TopEntriesAreTop(items);
    }
    forall v
      ensures WithKey(top, EntryExp, v) <= WithKey(items, EntryExp, v)
    {
      TopEntriesKeepTies(items, v);
    }
  }

  lemma DistinctAppend(s: seq<UserId>, x: UserId)
    requires Distinct(s) && x !in s
    ensures Distinct(s + [x])
  {
  }

  // ---------------------------------------------------------------------------
  // The tracker

  /**
   * The two maps of the AFK data file. `expOrder` lists the keys of `userExp`
   * in the order they were first added, which is the order in which Python's
   * dict (and the JSON file) keeps them.
   */
  class Tracker {
    var afkUsers: map<UserId, AfkInfo>
    var userExp: map<UserId, int>
    var expOrder: seq<UserId>

    ghost predicate Valid()
      reads this
    {
      && Distinct(expOrder)
      && forall u :: u in userExp <==> u in expOrder
    }

    /** The data the bot starts from when its data file is missing or unreadable. */
    constructor ()
      ensures Valid()
      ensures afkUsers == map[] && userExp == map[] && expOrder == []
    {
      afkUsers := map[];
      userExp := map[];
      expOrder := [];
    }

    /** `user_exp.get(user, 0)`: the member's EXP, or 0 for a member who has none. */
    function ExpOf(user: UserId): int
      reads this
    {
      if user in userExp then userExp[user] else 0
    }

    /** `user_exp.items()`, in insertion order. */
    function Items(): seq<Entry>
      reads this
      requires Valid()
    {
      EntriesOf(expOrder, userExp)
    }

    /**
     * The `afk` command: records `user` as away from `now`, with the given
     * message or the default one, overwriting any record already there. EXP
     * is not touched. The command arrives as a message, so the bot runs the
     * return branch of `on_message` first (`AfkCommandMessage`).
     */
    method SetAfk(user: UserId, message: Option<string>, userName: string, now: int)
      requires Valid()
      modifies this
      ensures Valid()
      ensures afkUsers == old(afkUsers)[user := AfkInfo(message.GetOr(NoMessageSet), now, userName)]
      ensures userExp == old(userExp) && expOrder == old(expOrder)
    {
      afkUsers := afkUsers[user := AfkInfo(message.GetOr(NoMessageSet), now, userName)];
    }

    /**
     * The part of `on_message` that handles a member's return. Messages from
     * the bot itself and from members who are not away change nothing. A
     * member who is away is removed from `afkUsers` and earns the reward for
     * the time away, added to their EXP (a member new to `userExp` starts at
     * zero and joins the end of its order); no other member's entries change.
     */
    method OnMessage(author: UserId, botUser: UserId, now: int, config: RankConfig) returns (welcome: Option<Welcome>)
      requires Valid()
      modifies this
      ensures Valid()
      ensures welcome.Some? <==> author != botUser && author in old(afkUsers)
      ensures welcome.None? ==> afkUsers == old(afkUsers) && userExp == old(userExp) && expOrder == old(expOrder)
      ensures welcome.Some? ==> author in old(afkUsers) && welcome.value == WelcomeFor(old(afkUsers)[author], old(ExpOf(author)), now, config)
      ensures welcome.Some? ==>
        && afkUsers == old(afkUsers) - {author}
        && userExp == old(userExp)[author := welcome.value.totalExp]
        && expOrder == if author in old(userExp) then old(expOrder) else old(expOrder) + [author]
    {
      if author == botUser || author !in afkUsers {
        return None;
      }
      var info := afkUsers[author];
      var w := WelcomeFor(info, ExpOf(author), now, config);
      // `user_exp[author]` is set to 0 when absent and then raised by the
      // reward; a new key joins the end of the order
      if author !in userExp {
        DistinctAppend(expOrder, author);
        expOrder := expOrder + [author];
      }
      userExp := userExp[author := w.totalExp];
      afkUsers := afkUsers - {author};
      welcome := Some(w);
    }

    /**
     * A message carrying the `afk` command. `on_message` ignores the bot's
     * own messages; for anyone else it runs the return branch and only then
     * dispatches the command. The command framework's own refusal of
     * messages from other bot accounts is not modelled: here any author but
     * the bot itself is recorded. A member who was already away is therefore
     * credited for the whole time away, measured from the old start time
     * (`ReturnCredit` says what the credit is), before the new record
     * is written.
     */
    method AfkCommandMessage(author: UserId, botUser: UserId, message: Option<string>, userName: string, now: int, config: RankConfig)
      returns (welcome: Option<Welcome>)
      requires Valid()
      modifies this
      ensures Valid()
      ensures welcome.Some? <==> author != botUser && author in old(afkUsers)
      ensures author == botUser ==> afkUsers == old(afkUsers) && userExp == old(userExp) && expOrder == old(expOrder)
      ensures author != botUser ==> afkUsers == old(afkUsers)[author := AfkInfo(message.GetOr(NoMessageSet), now, userName)]
      ensures welcome.None? ==> userExp == old(userExp) && expOrder == old(expOrder)
      ensures welcome.Some? ==>
        && author in old(afkUsers)
        && welcome.value == WelcomeFor(old(afkUsers)[author], old(ExpOf(author)), now, config)
        && userExp == old(userExp)[author := welcome.value.totalExp]
        && expOrder == if author in old(userExp) then old(expOrder) else old(expOrder) + [author]
    {
      welcome := OnMessage(author, botUser, now, config);
      if author == botUser {
        return;
      }
      ghost var left := afkUsers;
      SetAfk(author, message, userName, now);
      if welcome.Some? {
        assert left == old(afkUsers) - {author};
      } else {
        assert left == old(afkUsers);
      }
    }

    /**
     * The `exp` command: the member's EXP (zero if they have none), the rank
     * it earns and the next rank, which needs a positive amount of EXP more.
     */
    method ShowExp(user: UserId, config: RankConfig) returns (status: ExpStatus)
      ensures status.exp == ExpOf(user)
      ensures status.rank == UserRank(config.ranks, ExpOf(user))
      ensures status.next.None? <==> forall t :: t in config.ranks ==> t.minExp <= ExpOf(user)
      ensures status.next.Some? ==> IsNextRank(config.ranks, ExpOf(user), status.next.value)
      ensures status.next.Some? ==> status.next.value.minExp - status.exp > 0
      ensures status.next.Some? ==> WithKey(config.ranks, MinExp, status.next.value.minExp) != []
      ensures status.next.Some? ==> status.next.value == WithKey(config.ranks, MinExp, status.next.value.minExp)[0]
    {
      var exp := ExpOf(user);
      var next := FindNextRank(config.ranks, exp);
      status := ExpStatus(exp, UserRank(config.ranks, exp), next);
    }

    /**
     * The `top` command: at most ten rows, never more than there are members
     * with EXP; each row is a member's entry in `userExp`; EXP does not
     * increase down the list; a member left off has no more EXP than any row;
     * and members with equal EXP appear in insertion order.
     */
    function Leaderboard(): (top: seq<Entry>)
      reads this
      requires Valid()
      ensures |top| == if |userExp| < LeaderboardSize then |userExp| else LeaderboardSize
      ensures forall e :: e in top ==> e.user in userExp && userExp[e.user] == e.exp
      ensures Sorted(top, EntryExp, true)
      ensures forall u, e :: u in userExp && Entry(u, userExp[u]) !in top && e in top ==> userExp[u] <= e.exp
      ensures forall v :: WithKey(top, EntryExp, v) <= WithKey(Items(), EntryExp, v)
    {
      LeaderboardOfMap(expOrder, userExp);
      TopEntries(Items())
    }
  }
}
