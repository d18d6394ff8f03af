# AFK reward bot: the reward, rank and session engine in Dafny

The bot (`bot.py`) tracks members of a chat server who announce that they are
away from keyboard (AFK). A member who returns gets EXP for the time they were
away, and the EXP total earns a named rank. This project models the part of the
bot that makes those decisions, with Discord, JSON files and wall-clock time
stripped away:

- **`RankEngine`** (`rank_engine.dfy`) holds `calculate_exp_reward`, the
  rank lookup `get_user_rank` and the next-rank search inside the `exp` command.
  The rank configuration is a parameter, not a file that is re-read on every call.
- **`Duration`** (`duration.dfy`) holds `format_duration`. Its partner is a strict
  parser of the texts the formatter produces.
- **`AfkTracker`** (`afk_tracker.dfy`) holds a `Tracker` object with the two maps
  of the data file (`afk_users`, `user_exp`). Its methods are the return branch
  of `on_message`, the `afk` command and the `exp` command. The `top`
  leaderboard is a function over the object.
- **`Orders`** (`orders.dfy`) is Python's stable `sorted(..., key=..., reverse=...)`,
  written as an insertion sort. It proves that the sort permutes its input,
  orders it, and keeps equal keys in their input order.
- **`Text`** (`text.dfy`) renders integers in decimal as Python's f-strings do,
  and reads them back, negative numbers included.
- **`Wrappers`** (`wrappers.dfy`) provides `Option`.

Modelling choices:

- Time is an integer number of seconds. The caller passes in "now", and an AFK
  record stores the start time as seconds.
- A rate is an integer number of EXP per minute. The reward for `s` seconds at
  rate `r` is the exact quotient `s * r / 60` rounded toward zero. The code
  computes `int((s / 60) * r)` in floating point, where the product can come
  out just below a whole number, so the bot can award one EXP less than the
  model (84 seconds at rate 45: the model gives 63, the float product
  truncates to 62).
- A tier is `(name, minExp, color)`.
- A member id is a string.
- The insertion order of `user_exp`, which decides how ties are shown on the
  leaderboard, is kept as the sequence `expOrder` beside the map.

Behaviour of the code that the model keeps as it is:

- **Negative time away:** the reward is not clamped at zero, so a start time
  in the future gives a negative reward (`RewardNotClampedAtZero`).
- **Giving `afk` while away:** every command arrives as a message, and
  `on_message` runs its return branch (bot.py:114-138) before it dispatches
  the command (bot.py:177). A member who is away and sends `afk` is first
  credited for the whole time away and removed, and only then recorded as
  away again from now (`Tracker.AfkCommandMessage`). `set_afk` on its own
  overwrites any record it finds (`Tracker.SetAfk`).
- **Leaderboard:** ties keep the insertion order of `user_exp`, and the
  board is cut to at most ten rows (bot.py:282).
- **Stored fields:** an AFK record holds only the message, the start time and
  the display name; nothing records total time away or when a session ended.

Two quirks of the code are stated as lemmas rather than corrected:

- The seconds branch of `format_duration` never drops the plural: 1 second reads
  "1 seconds" (`OneSecondStaysPlural`).
- Below every threshold, the "current rank" is a tier with the lowest
  threshold, which is also the next threshold to reach (`CurrentAndNextRank`).
  With several tiers on that threshold the two picks can differ: the rank is
  the last of them in configuration order, the next rank the first.

## Model

| member | source | states |
|---|---|---|
| `RankEngine.TruncDiv` | bot.py:59 | the result is the quotient rounded toward zero, as `int()` rounds, for either sign of the dividend |
| `RankEngine.ExpReward` | bot.py:52-62 | the reward never exceeds the per-session cap, and equals the truncated `seconds * rate / 60` whenever that is below the cap; there is no lower bound |
| `RankEngine.RewardMonotone` | bot.py:59-62 | with a non-negative rate a longer session never earns less, and a non-negative session with a non-negative cap earns nothing negative |
| `RankEngine.RewardNotClampedAtZero` | bot.py:59-62 | a start time two minutes in the future costs 2 EXP under the default rate |
| `RankEngine.RewardExamples` | bot.py:52-62 | under the default rate (1 per minute, cap 100): 1, 30, 60 and 120 minutes earn 1, 30, 60 and 100; 59 seconds earn 0 |
| `RankEngine.FirstReached` | bot.py:72-74 | the index of the first tier whose threshold `exp` reaches: every earlier tier is above `exp` |
| `RankEngine.UserRank` | bot.py:64-77 | with no tiers the result is the synthetic "Unranked" tier; otherwise it is one of the configured tiers |
| `RankEngine.UserRankHighestReached` | bot.py:70-74 | when some threshold is reached, the rank has the greatest threshold `exp` reaches; among tiers sharing it, the first in configuration order |
| `RankEngine.UserRankBelowEveryThreshold` | bot.py:76-77 | when no threshold is reached, the rank has the smallest threshold; among tiers sharing it, the last in configuration order |
| `RankEngine.UserRankMonotone` | bot.py:64-77 | more EXP never yields a tier with a lower threshold |
| `RankEngine.UserRankByThreshold` | bot.py:70-74 | a reached tier with a threshold that no other tier shares and no reached tier exceeds is the rank |
| `RankEngine.UserRankExamplesLow` | bot.py:64-77 | under the tier list the test script expects (test_bot.py:54-64), 0 and 50 EXP are Newbie and 100 is Regular |
| `RankEngine.UserRankExamplesMiddle` | bot.py:64-77 | under the tier list the test script expects (test_bot.py:54-64), 500, 1500 and 3000 EXP are Active, Veteran and Expert |
| `RankEngine.UserRankExamplesHigh` | bot.py:64-77 | under the tier list the test script expects (test_bot.py:54-64), 5000 EXP is Master and 10000 and 99999 are Legend |
| `RankEngine.FindNextRank` | bot.py:226-232 | no next rank exactly when every threshold is at most `exp`; otherwise the tier with the smallest threshold above `exp`, the first such in configuration order |
| `RankEngine.CurrentAndNextRank` | bot.py:215-232 | once a threshold is reached the next rank lies strictly above the current one; below every threshold the current rank is itself a next rank |
| `Orders.SortBy` | bot.py:70 | Python's stable `sorted(items, key=..., reverse=...)`, as used at bot.py:70, 227 and 282; the result has the input's length, and `SortPermutes`, `SortSorted` and `SortKeepsTies` state that it is a rearrangement, ordered, and stable |
| `Orders.SortPermutes` | bot.py:70 | `sorted` returns a rearrangement of its input (same multiset) |
| `Orders.SortSorted` | bot.py:70 | `sorted` returns its input ordered by the key, in the requested direction |
| `Orders.SortKeepsTies` | bot.py:70 | `sorted` is stable: for every key, the elements with that key keep their input order |
| `Orders.InsertKeepsTies` | bot.py:227 | the insertion step of every `sorted` call (bot.py:70, 227 and 282): inserting an element puts it ahead of every element with an equal key and keeps the others' order |
| `Orders.WithKeyOfPrefix` | bot.py:282 | cutting a list short cuts each of its groups of equal keys short, keeping their order |
| `Text.IntToString` | bot.py:82 | `f"{int(seconds)}"`: a non-empty rendering that starts with a minus sign exactly when the number is negative; `ReadIntOfIntToString` fixes the value it denotes |
| `Text.NatToString` | bot.py:85 | an f-string renders a count as a non-empty run of decimal digits with no leading zero |
| `Text.ReadIntOfIntToString` | bot.py:82 | `f"{int(seconds)}"` followed by a non-digit reads back, through an optional minus sign and the digits, as that integer and the text after it, for negative numbers too |
| `Text.ReadNatOfNatToString` | bot.py:85 | a rendered count followed by a non-digit reads back as that count and the text after it |
| `Duration.FormatDuration` | bot.py:79-92 | `format_duration`: seconds below a minute, whole minutes below an hour, hours and any remaining minutes otherwise; what the text means is stated by `FormatDurationReadsBack` and the example lemmas below |
| `Duration.FormatDurationReadsBack` | bot.py:79-92 | the text for a non-negative duration parses back to a canonical reading: seconds below a minute, minutes below an hour, hours otherwise; it stands for the duration rounded down to a whole minute from one minute up |
| `Duration.MinutesText` | bot.py:83-85 | "M minute(s)" with number agreement reads back as M minutes |
| `Duration.HoursText` | bot.py:91-92 | "H hour(s)" reads back as H hours and no minutes |
| `Duration.HoursMinutesText` | bot.py:89-90 | "H hour(s) and M minute(s)" with M > 0 reads back as H hours and M minutes |
| `Duration.HoursAndMinutesShape` | bot.py:86-90 | a duration of H hours and M minutes, with both non-zero, is written with both units |
| `Duration.SecondsTextReadsBack` | bot.py:81-82 | below a minute, negative durations included, the text reads back as exactly the signed count of seconds followed by " seconds" |
| `Duration.OneSecondStaysPlural` | bot.py:81-82 | one second reads "1 seconds" |
| `Duration.NegativeDurationShowsSign` | bot.py:81-82 | a negative duration is written with its minus sign in the seconds form |
| `Duration.FormatDurationExamplesBelowHour` | bot.py:79-85 | 30, 60, 90 and 120 seconds read "30 seconds", "1 minute", "1 minute" and "2 minutes" |
| `Duration.FormatDurationExamplesWholeHours` | bot.py:86-92 | 3600 and 7200 seconds read "1 hour" and "2 hours" |
| `Duration.FormatDurationExampleHourAndMinute` | bot.py:86-90 | 3660 seconds read "1 hour and 1 minute" |
| `Duration.FormatDurationExampleHoursAndMinutes` | bot.py:86-90 | 7320 seconds read "2 hours and 2 minutes" |
| `AfkTracker.WelcomeFor` | bot.py:115-150 | the welcome-back report of a return (time away, its rendering, reward, new total, rank); what it credits is stated by `ReturnCredit` |
| `AfkTracker.ReturnCredit` | bot.py:114-150 | a return adds exactly the capped reward for the time away to the member's EXP, and the duration shown reads back as at most the time away; with a forward clock and a non-negative rate and cap, EXP does not fall and the rank is never lowered |
| `AfkTracker.EntriesOf` | bot.py:282 | `user_exp.items()` has one entry per key in the given order, carrying that key's value |
| `AfkTracker.TopEntries` | bot.py:282 | the leaderboard has ten rows, or fewer when there are fewer items |
| `AfkTracker.TopEntriesRows` | bot.py:282 | every row is one of the items, and with ten items or fewer the rows are exactly the items |
| `AfkTracker.TopEntriesOrdered` | bot.py:282 | EXP does not increase down the leaderboard |
| `AfkTracker.TopEntriesAreTop` | bot.py:282 | an item left off the leaderboard has no more EXP than any row on it |
| `AfkTracker.TopEntriesKeepTies` | bot.py:282 | rows with equal EXP appear in the order of `user_exp` |
| `AfkTracker.EntriesOfSize` | bot.py:282 | the items of the map are as many as its keys |
| `AfkTracker.EntriesOfMap` | bot.py:282 | the items are exactly the map's key/value pairs |
| `AfkTracker.LeaderboardOfMap` | bot.py:272-282 | for a map and its insertion order: length, rows from the map, order, top property and ties together |
| `AfkTracker.Tracker.constructor` | bot.py:28-34 | the data the bot falls back to: no AFK members and no EXP |
| `AfkTracker.Tracker.SetAfk` | bot.py:179-195 | the member's AFK record is created or overwritten with the message (default "No message set"), the time and the name; no EXP and no other record change |
| `AfkTracker.Tracker.OnMessage` | bot.py:101-150 | a message from the bot, or from a member who is not away, changes nothing; otherwise the member leaves `afk_users`, their EXP becomes the old value (0 if absent) plus the reward, a new member joins the end of the EXP order, and nothing else changes |
| `AfkTracker.Tracker.AfkCommandMessage` | bot.py:101-195 | a message carrying `afk`: nothing changes for the bot's own message; otherwise a member who was away first gets the return's welcome, computed from the old start time, and the new EXP it reports; the member is then recorded as away from now with the given message, and no other entry changes |
| `AfkTracker.Tracker.ExpOf` | bot.py:215 | `user_exp.get(user_id, 0)`: the member's EXP, 0 for a member who has none |
| `AfkTracker.Tracker.ShowExp` | bot.py:208-238 | reports the member's EXP (0 if absent), the rank it earns, and the next rank: the smallest threshold above the EXP, the first tier in configuration order with that threshold, which needs a positive amount of EXP; no next rank exactly when every threshold is reached |
| `AfkTracker.Tracker.Leaderboard` | bot.py:266-282 | at most ten rows and never more than there are members with EXP, each a member's entry, in non-increasing EXP, with nobody left off who has more EXP than a row, and ties in insertion order |

## Left out

- Discord plumbing is not modelled: the bot setup, `on_ready`, embeds, sending
  messages, the AFK-mention notices in `on_message` (bot.py:155-174, read-only
  rendering), the `rank` command's rendering, `on_command_error`,
  `bot.get_user` and medals. These are network and presentation code.
- `Tracker.AfkCommandMessage`: the command framework behind bot.py:177 (not
  part of `bot.py`) ignores commands from any bot account; the model only
  excludes the bot itself, so another bot's `afk` would be recorded here.
- File I/O is not modelled (`load_afk_data`, `save_afk_data`,
  `load_rank_config`). The model keeps one in-memory state, and the fallback
  defaults appear as `Tracker.constructor` and `RankEngine.DefaultConfig`. A
  failed save, which the bot only prints, is not modelled.
- Environment variables and the token check are not modelled.
- Wall-clock time, ISO-8601 parsing and floating point are not modelled. A
  duration is a whole number of seconds and a rate a whole number. A
  fractional rate, and float rounding in `minutes * rate`, are not covered.
- Missing keys in the configuration (`.get('min_exp', 0)`,
  `.get('base_per_minute', 1)`, `.get('max_per_session', 100)`) are not
  modelled. A tier always has a threshold and a rate always has both numbers.
- The colour of a tier is carried, but hex-colour parsing is not modelled.
- async/await is not modelled: every operation runs to completion on its own.
- The two-step EXP update of the return branch (a missing entry set to 0, then
  the reward added) is written as one assignment of the old value (0 if absent)
  plus the reward; the resulting map and key order are the same.
