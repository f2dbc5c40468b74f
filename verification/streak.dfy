/** The per-habit values the page controller derives on every render: the current
    streak, whether the habit is already checked in today, and this week's progress.
    "Today" and the bounds of the current week come from the clock and are parameters. */
module StreakEngine {
  import opened Options
  import opened Calendar
  import opened Records
  import opened Sorting
  import opened Seqs

  /** Day numbers of one habit's check-ins, in list order: the filter on `habit_id`
      followed by `new Date(c.date)`. */
  function HabitDays(checkins: seq<Checkin>, habitId: string): (days: seq<int>)
    ensures |days| <= |checkins|
  {
    if |checkins| == 0 then []
    else
      var last := checkins[|checkins| - 1];
      HabitDays(checkins[..|checkins| - 1], habitId)
        + (if last.habitId == habitId then [DayNumber(last.date)] else [])
  }

  /** The habit's days are the dates of its check-ins, one for each and in the same
      order: a check-in made twice for a day gives that day twice. */
  lemma {:induction false} HabitDaysOfRows(checkins: seq<Checkin>, habitId: string)
    ensures |HabitDays(checkins, habitId)| == |OfHabit(checkins, habitId)|
    ensures forall i :: 0 <= i < |HabitDays(checkins, habitId)| ==>
      HabitDays(checkins, habitId)[i] == DayNumber(OfHabit(checkins, habitId)[i].date)
  {
    if |checkins| > 0 {
      var init := checkins[..|checkins| - 1];
      var last := checkins[|checkins| - 1];
      HabitDaysOfRows(init, habitId);
      var days, kept := HabitDays(checkins, habitId), OfHabit(checkins, habitId);
      var days0, kept0 := HabitDays(init, habitId), OfHabit(init, habitId);
      if last.habitId == habitId {
        assert days == days0 + [DayNumber(last.date)];
        assert kept == kept0 + [last];
      } else {
        assert days == days0;
        assert kept == kept0;
      }
      forall i | 0 <= i < |days|
        ensures days[i] == DayNumber(kept[i].date)
      {
        if i < |days0| {
          assert days[i] == days0[i] && kept[i] == kept0[i];
        }
      }
    }
  }

  /** A day number is among a habit's days exactly when one of that habit's check-ins is
      dated on it. */
  lemma {:induction false} HabitDaysMembers(checkins: seq<Checkin>, habitId: string, n: int)
    ensures n in HabitDays(checkins, habitId) <==>
      exists i :: 0 <= i < |checkins| && checkins[i].habitId == habitId && DayNumber(checkins[i].date) == n
  {
    if |checkins| > 0 {
      var init := checkins[..|checkins| - 1];
      HabitDaysMembers(init, habitId, n);
      if exists i :: 0 <= i < |init| && init[i].habitId == habitId && DayNumber(init[i].date) == n {
        var i :| 0 <= i < |init| && init[i].habitId == habitId && DayNumber(init[i].date) == n;
        assert checkins[i] == init[i];
      }
    }
  }

  lemma {:induction false} HabitDaysAppend(a: seq<Checkin>, b: seq<Checkin>, habitId: string)
    ensures HabitDays(a + b, habitId) == HabitDays(a, habitId) + HabitDays(b, habitId)
    decreases |b|
  {
    if |b| > 0 {
      assert (a + b)[..|a + b| - 1] == a + b[..|b| - 1];
      HabitDaysAppend(a, b[..|b| - 1], habitId);
    } else {
      assert a + b == a;
    }
  }

  /** The habit's days depend only on which check-ins there are, not on their order. */
  lemma {:induction false} HabitDaysPermutation(a: seq<Checkin>, b: seq<Checkin>, habitId: string)
    requires multiset(a) == multiset(b)
    ensures multiset(HabitDays(a, habitId)) == multiset(HabitDays(b, habitId))
    decreases |a|
  {
    if |a| == 0 {
      assert |b| == 0 by { assert |multiset(b)| == 0; }
    } else {
      var x := a[|a| - 1];
      var a' := a[..|a| - 1];
      var k := PickOut(a, b);
      var b' := b[..k] + b[k + 1..];
      HabitDaysPermutation(a', b', habitId);
      assert a == a' + [x];
      HabitDaysAppend(a', [x], habitId);
      HabitDaysSplice(b, k, habitId);
    }
  }

  /** Where the last of `a` sits in a rearrangement `b`, and what is left of both. */
  lemma PickOut(a: seq<Checkin>, b: seq<Checkin>) returns (k: int)
    requires |a| > 0 && multiset(a) == multiset(b)
    ensures 0 <= k < |b| && b[k] == a[|a| - 1]
    ensures multiset(a[..|a| - 1]) == multiset(b[..k] + b[k + 1..])
  {
    var x := a[|a| - 1];
    assert a == a[..|a| - 1] + [x];
    assert x in multiset(b);
    k :| 0 <= k < |b| && b[k] == x;
    assert b == b[..k] + [x] + b[k + 1..];
    assert multiset(a[..|a| - 1]) == multiset(a) - multiset{x};
    assert multiset(b[..k] + b[k + 1..]) == multiset(b) - multiset{x};
  }

  /** Taking one check-in out of the middle takes its day, if any, out of the days. */
  lemma HabitDaysSplice(b: seq<Checkin>, k: int, habitId: string)
    requires 0 <= k < |b|
    ensures multiset(HabitDays(b, habitId))
      == multiset(HabitDays(b[..k] + b[k + 1..], habitId)) + multiset(HabitDays([b[k]], habitId))
  {
    var front, x, back := b[..k], b[k], b[k + 1..];
    assert b == front + [x] + back;
    HabitDaysAppend(front + [x], back, habitId);
    HabitDaysAppend(front, [x], habitId);
    HabitDaysAppend(front, back, habitId);
  }

  /** How many days of `days`, from its head on, step back one day at a time from
      `expected`: the walk stops at the first day that is not the one expected. */
  function RunLength(days: seq<int>, expected: int): (n: nat)
    ensures n <= |days|
    ensures forall j :: 0 <= j < n ==> days[j] == expected - j
    ensures n < |days| ==> days[n] != expected - n
  {
    if |days| == 0 || days[0] != expected then 0
    else 1 + RunLength(days[1..], expected - 1)
  }

  /** The current streak of a habit: its check-in days newest first; none, or a newest
      day more than one day before today, is no streak; otherwise the run of consecutive
      days that starts at the newest. */
  function Streak(checkins: seq<Checkin>, habitId: string, today: Date): nat {
    var days := SortDesc(HabitDays(checkins, habitId));
    if |days| == 0 then 0
    else if DayNumber(today) - days[0] > 1 then 0
    else RunLength(days, days[0])
  }

  /** The streak computed the way the page computes it: sort, test the grace period, then
      walk the sorted days while each is the day expected, moving the expected day back
      by one after each match. */
  method CalculateStreak(checkins: seq<Checkin>, habitId: string, today: Date) returns (streak: nat)
    ensures streak == Streak(checkins, habitId, today)
  {
    var days := SortDesc(HabitDays(checkins, habitId));
    if |days| == 0 {
      return 0;
    }
    streak := 0;
    var latest := days[0];
    if DayNumber(today) - latest > 1 {
      return 0;
    }
    var current := latest;
    var i := 0;
    while i < |days|
      invariant 0 <= i <= |days|
      invariant streak == i && current == latest - i
      invariant RunLength(days, latest) == i + RunLength(days[i..], current)
    {
      if days[i] == current {
        assert days[i..][1..] == days[i + 1..];
        streak := streak + 1;
        current := current - 1;
      } else {
        break;
      }
      i := i + 1;
    }
  }

  /** The streak is zero exactly when the habit has no check-ins or its newest check-in
      is more than one day before today; a streak that is not broken is at least one. */
  lemma StreakZeroIff(checkins: seq<Checkin>, habitId: string, today: Date)
    ensures var days := HabitDays(checkins, habitId);
      Streak(checkins, habitId, today) == 0 <==> |days| == 0 || DayNumber(today) - Latest(days) > 1
  {
    var days := HabitDays(checkins, habitId);
    if |days| > 0 {
      SortedHead(days, SortDesc(days));
    } else {
      assert |SortDesc(days)| == 0 by { assert |multiset(SortDesc(days))| == 0; }
    }
  }

  /** The streak never exceeds the number of the habit's check-ins. */
  lemma StreakBounded(checkins: seq<Checkin>, habitId: string, today: Date)
    ensures Streak(checkins, habitId, today) <= |HabitDays(checkins, habitId)|
  {
    var days := HabitDays(checkins, habitId);
    assert |SortDesc(days)| == |days| by { assert |multiset(SortDesc(days))| == |multiset(days)|; }
  }

  lemma {:induction false} NoDuplicatesCount(s: seq<int>, x: int)
    requires NoDuplicates(s)
    ensures multiset(s)[x] <= 1
    decreases |s|
  {
    if |s| > 0 {
      var init := s[..|s| - 1];
      assert s == init + [s[|s| - 1]];
      NoDuplicatesCount(init, x);
      if s[|s| - 1] == x {
        assert x !in init;
      }
    }
  }

  lemma RepeatCount(s: seq<int>, i: int, j: int)
    requires 0 <= i < j < |s| && s[i] == s[j]
    ensures multiset(s)[s[i]] >= 2
  {
    assert s == s[..j] + [s[j]] + s[j + 1..];
    assert s[i] in s[..j];
  }

  /** Sorting keeps distinct days distinct, so the sorted days strictly decrease. */
  lemma {:induction false} SortedDistinct(s: seq<int>, sorted: seq<int>)
    requires NoDuplicates(s)
    requires SortedDesc(sorted) && multiset(sorted) == multiset(s)
    ensures forall i, j :: 0 <= i < j < |sorted| ==> sorted[i] > sorted[j]
  {
    forall i, j | 0 <= i < j < |sorted|
      ensures sorted[i] > sorted[j]
    {
      if sorted[i] == sorted[j] {
        RepeatCount(sorted, i, j);
        NoDuplicatesCount(s, sorted[i]);
      }
    }
  }

  /** On strictly decreasing days headed by `newest`, the walk covers the days
      `newest - n + 1 .. newest` and the next day back is absent. */
  lemma {:induction false} RunOfStrictlyDecreasing(sorted: seq<int>, newest: int)
    requires |sorted| > 0 && sorted[0] == newest
    requires forall i, j :: 0 <= i < j < |sorted| ==> sorted[i] > sorted[j]
    ensures var n := RunLength(sorted, newest);
      && n >= 1
      && (forall d :: newest - n < d <= newest ==> d in sorted)
      && newest - n !in sorted
  {
    var n := RunLength(sorted, newest);
    forall d | newest - n < d <= newest
      ensures d in sorted
    {
      assert sorted[newest - d] == d;
    }
    forall i | 0 <= i < |sorted|
      ensures sorted[i] != newest - n
    {
      if i > n {
        assert sorted[i] < sorted[n] < sorted[n - 1];
      }
    }
  }

  /** On distinct days sorted newest first, the walk from the newest day covers a run of
      days that are all present and stops where the next day back is absent. */
  lemma {:induction false} MaximalRunOfDistinctDays(days: seq<int>, sorted: seq<int>)
    requires |days| > 0
    requires NoDuplicates(days)
    requires SortedDesc(sorted) && multiset(sorted) == multiset(days)
    ensures var newest := Latest(days);
      var r := RunLength(sorted, newest);
      && r >= 1
      && (forall d :: newest - r < d <= newest ==> d in days)
      && newest - r !in days
  {
    SortedHead(days, sorted);
    SortedDistinct(days, sorted);
    var newest := Latest(days);
    RunOfStrictlyDecreasing(sorted, newest);
    var r := RunLength(sorted, newest);
    forall d | newest - r < d <= newest
      ensures d in days
    {
      assert d in sorted;
      assert d in multiset(sorted);
    }
    assert newest - r !in multiset(sorted);
  }

  /** With one check-in per day and a streak that is not broken, the streak is the length
      of the longest run newest, newest − 1, newest − 2, … of days the habit was checked
      in: every day of the run is present and the day before the run is not. */
  lemma {:induction false} StreakIsMaximalRun(checkins: seq<Checkin>, habitId: string, today: Date)
    requires |HabitDays(checkins, habitId)| > 0
    requires DayNumber(today) - Latest(HabitDays(checkins, habitId)) <= 1
    requires NoDuplicates(HabitDays(checkins, habitId))
    ensures var days := HabitDays(checkins, habitId);
      var r := Streak(checkins, habitId, today);
      var newest := Latest(days);
      && r >= 1
      && (forall d :: newest - r < d <= newest ==> d in days)
      && newest - r !in days
  {
    var days := HabitDays(checkins, habitId);
    SortedHead(days, SortDesc(days));
    MaximalRunOfDistinctDays(days, SortDesc(days));
  }

  /** Repeated dates are not merged: when the newest day is checked in twice, the walk
      meets it a second time where it expects the day before and stops at one. */
  lemma {:induction false} StreakStopsAtRepeatedNewest(checkins: seq<Checkin>, habitId: string, today: Date)
    requires |HabitDays(checkins, habitId)| > 0
    requires DayNumber(today) - Latest(HabitDays(checkins, habitId)) <= 1
    requires multiset(HabitDays(checkins, habitId))[Latest(HabitDays(checkins, habitId))] >= 2
    ensures Streak(checkins, habitId, today) == 1
  {
    var days := HabitDays(checkins, habitId);
    assert FirstRepeatAt(days, 0);
    StreakStopsAtFirstRepeat(checkins, habitId, today, 0);
  }

  /** A day found only once is found at no second position. */
  lemma {:induction false} OnceIsDistinct(s: seq<int>, i: int, j: int)
    requires 0 <= i < j < |s| && multiset(s)[s[i]] <= 1
    ensures s[i] != s[j]
  {
    if s[i] == s[j] {
      RepeatCount(s, i, j);
    }
  }

  /** The walk counts exactly `n` when the first `n` days match and the next does not. */
  lemma {:induction false} RunLengthExact(days: seq<int>, expected: int, n: nat)
    requires n < |days|
    requires forall j :: 0 <= j < n ==> days[j] == expected - j
    requires days[n] != expected - n
    ensures RunLength(days, expected) == n
  {
  }

  /** The days `newest`, `newest − 1`, …, `newest − k` are all in `m`, those above
      `newest − k` exactly once. */
  predicate OnceEachDown(m: multiset<int>, newest: int, k: nat) {
    && (forall d :: newest - k <= d <= newest ==> m[d] >= 1)
    && (forall d :: newest - k < d <= newest ==> m[d] == 1)
  }

  /** Sorted days whose newest `k + 1` days are all present, those above `newest − k`
      once each, start with exactly those days, one per position. */
  lemma {:induction false} SortedRunPrefix(sorted: seq<int>, k: nat)
    requires |sorted| > 0 && SortedDesc(sorted)
    requires OnceEachDown(multiset(sorted), sorted[0], k)
    ensures k < |sorted|
    ensures forall j :: 0 <= j <= k ==> sorted[j] == sorted[0] - j
    decreases k
  {
    var newest := sorted[0];
    if k > 0 {
      SortedRunPrefix(sorted, k - 1);
      assert newest - k in multiset(sorted);
      var i :| 0 <= i < |sorted| && sorted[i] == newest - k;
      assert i >= k;
      assert sorted[k] >= sorted[i];
      OnceIsDistinct(sorted, k - 1, k);
    }
  }

  /** When the day the prefix reaches is there a second time, that second copy comes
      right after it. */
  lemma {:induction false} RepeatFollows(sorted: seq<int>, k: nat)
    requires SortedDesc(sorted) && k < |sorted|
    requires forall j :: 0 <= j <= k ==> sorted[j] == sorted[0] - j
    requires multiset(sorted)[sorted[0] - k] >= 2
    ensures k + 1 < |sorted| && sorted[k + 1] == sorted[0] - k
  {
    var i := SecondCopy(sorted, k);
    assert i > k;
    assert sorted[k] >= sorted[k + 1] >= sorted[i];
  }

  /** A day counted twice has a second position. */
  lemma {:induction false} SecondCopy(s: seq<int>, k: int) returns (i: int)
    requires 0 <= k < |s| && multiset(s)[s[k]] >= 2
    ensures 0 <= i < |s| && i != k && s[i] == s[k]
  {
    var front, back := s[..k], s[k + 1..];
    assert s == front + [s[k]] + back;
    assert multiset(s) == multiset(front) + multiset{s[k]} + multiset(back);
    if s[k] in front {
      i :| 0 <= i < |front| && front[i] == s[k];
    } else {
      assert s[k] in multiset(back);
      var b :| 0 <= b < |back| && back[b] == s[k];
      i := k + 1 + b;
    }
  }

  /** The days newest, newest − 1, …, newest − k are all present, those above
      `newest − k` once each, and `newest − k` at least twice. */
  predicate FirstRepeatAt(days: seq<int>, k: nat)
    requires |days| > 0
  {
    OnceEachDown(multiset(days), Latest(days), k) && multiset(days)[Latest(days) - k] >= 2
  }

  /** On days sorted newest first, the walk stops at the first repeated day of the run:
      it counts exactly `k + 1` when `newest − k` is that day. */
  lemma {:induction false} SortedRunStops(sorted: seq<int>, m: multiset<int>, newest: int, k: nat)
    requires |sorted| > 0 && SortedDesc(sorted) && multiset(sorted) == m && sorted[0] == newest
    requires OnceEachDown(m, newest, k) && m[newest - k] >= 2
    ensures RunLength(sorted, newest) == k + 1
  {
    SortedRunPrefix(sorted, k);
    RepeatFollows(sorted, k);
    RunLengthExact(sorted, sorted[0], k + 1);
  }

  lemma {:induction false} RunStopsAtFirstRepeat(days: seq<int>, sorted: seq<int>, k: nat)
    requires |days| > 0 && FirstRepeatAt(days, k)
    requires SortedDesc(sorted) && multiset(sorted) == multiset(days)
    ensures RunLength(sorted, Latest(days)) == k + 1
  {
    SortedHead(days, sorted);
    SortedRunStops(sorted, multiset(days), Latest(days), k);
  }

  /** Repeated dates inside the run are not merged either: the first day of the run that
      was checked in twice ends the streak there. */
  lemma {:induction false} StreakStopsAtFirstRepeat(checkins: seq<Checkin>, habitId: string, today: Date, k: nat)
    requires |HabitDays(checkins, habitId)| > 0
    requires DayNumber(today) - Latest(HabitDays(checkins, habitId)) <= 1
    requires FirstRepeatAt(HabitDays(checkins, habitId), k)
    ensures Streak(checkins, habitId, today) == k + 1
  {
    var days := HabitDays(checkins, habitId);
    SortedHead(days, SortDesc(days));
    RunStopsAtFirstRepeat(days, SortDesc(days), k);
  }

  /** The history [D, D, D − 1] has a streak of one on day D. */
  lemma RepeatedDayExample()
    ensures Streak([Checkin("a", "h", Date(2024, 3, 10)), Checkin("b", "h", Date(2024, 3, 10)),
                    Checkin("c", "h", Date(2024, 3, 9))], "h", Date(2024, 3, 10)) == 1
  {
    var cs := [Checkin("a", "h", Date(2024, 3, 10)), Checkin("b", "h", Date(2024, 3, 10)),
               Checkin("c", "h", Date(2024, 3, 9))];
    var d := DayNumber(Date(2024, 3, 10));
    assert cs[..2][..1] == [cs[0]];
    assert HabitDays(cs, "h") == [d, d, d - 1];
    assert multiset([d, d, d - 1])[d] == 2;
    StreakStopsAtRepeatedNewest(cs, "h", Date(2024, 3, 10));
  }

  /** The streak does not depend on the order in which the store returns the rows. */
  lemma StreakIgnoresOrder(a: seq<Checkin>, b: seq<Checkin>, habitId: string, today: Date)
    requires multiset(a) == multiset(b)
    ensures Streak(a, habitId, today) == Streak(b, habitId, today)
  {
    HabitDaysPermutation(a, b, habitId);
    SortedUnique(SortDesc(HabitDays(a, habitId)), SortDesc(HabitDays(b, habitId)));
  }

  /** Whether the habit has a check-in whose `yyyy-MM-dd` key is today's key. */
  function IsCheckedToday(checkins: seq<Checkin>, habitId: string, today: Date): (checked: bool)
    ensures checked <==> exists i :: 0 <= i < |checkins| && checkins[i].habitId == habitId
                                   && FormatKey(checkins[i].date) == FormatKey(today)
  {
    if |checkins| == 0 then false
    else
      var last := checkins[|checkins| - 1];
      var earlier := IsCheckedToday(checkins[..|checkins| - 1], habitId, today);
      assert forall i :: 0 <= i < |checkins| - 1 ==> checkins[..|checkins| - 1][i] == checkins[i];
      earlier || (last.habitId == habitId && FormatKey(last.date) == FormatKey(today))
  }

  /** For real dates with four-digit years, comparing keys is comparing dates. */
  lemma CheckedTodayByDate(checkins: seq<Checkin>, habitId: string, today: Date)
    requires Representable(today)
    requires forall i :: 0 <= i < |checkins| ==> Representable(checkins[i].date)
    ensures IsCheckedToday(checkins, habitId, today) <==>
      exists i :: 0 <= i < |checkins| && checkins[i].habitId == habitId && checkins[i].date == today
  {
    forall i | 0 <= i < |checkins|
      ensures FormatKey(checkins[i].date) == FormatKey(today) <==> checkins[i].date == today
    {
      KeyInjective(checkins[i].date, today);
    }
  }

  /** The row a check-in click inserts: nothing when the habit is already checked in
      today, otherwise a check-in of this habit dated today. */
  function CheckInRow(checkins: seq<Checkin>, habitId: string, today: Date, newId: string): (row: Option<Checkin>)
    ensures row.None? <==> IsCheckedToday(checkins, habitId, today)
    ensures row.Some? ==> row.value.habitId == habitId && row.value.date == today
  {
    if IsCheckedToday(checkins, habitId, today) then None else Some(Checkin(newId, habitId, today))
  }

  /** A check-in is made at most once a day: once its row is in the list the habit is
      checked in today and a second click inserts nothing. */
  lemma CheckInOncePerDay(checkins: seq<Checkin>, habitId: string, today: Date, newId: string, nextId: string)
    requires CheckInRow(checkins, habitId, today, newId).Some?
    ensures var after := checkins + [CheckInRow(checkins, habitId, today, newId).value];
      IsCheckedToday(after, habitId, today) && CheckInRow(after, habitId, today, nextId) == None
  {
    var after := checkins + [CheckInRow(checkins, habitId, today, newId).value];
    assert after[|checkins|].habitId == habitId;
  }

  /** Adding a day newer than every other puts it at the head of the sorted days. */
  lemma {:induction false} SortNewestFirst(days: seq<int>, t: int)
    requires forall n :: n in days ==> n < t
    ensures SortDesc(days + [t]) == [t] + SortDesc(days)
  {
    var sorted := SortDesc(days);
    SortSnoc(days, t);
    if |sorted| > 0 {
      assert sorted[0] in multiset(days);
      assert sorted[0] in days;
    }
  }

  lemma SortSnoc(days: seq<int>, t: int)
    ensures SortDesc(days + [t]) == Insert(t, SortDesc(days))
  {
    var s := days + [t];
    assert s[..|s| - 1] == days && s[|s| - 1] == t;
  }

  /** Checking in today, when no check-in of the habit is dated today or later, extends a
      streak that ended yesterday by one and otherwise starts a new streak of one. */
  lemma {:induction false} CheckInExtendsStreak(checkins: seq<Checkin>, habitId: string, today: Date, newId: string)
    requires forall n :: n in HabitDays(checkins, habitId) ==> n < DayNumber(today)
    ensures var days := HabitDays(checkins, habitId);
      var after := checkins + [Checkin(newId, habitId, today)];
      Streak(after, habitId, today)
        == 1 + (if |days| > 0 && Latest(days) == DayNumber(today) - 1 then Streak(checkins, habitId, today) else 0)
  {
    var days := HabitDays(checkins, habitId);
    var t := DayNumber(today);
    var after := checkins + [Checkin(newId, habitId, today)];
    assert after[..|after| - 1] == checkins;
    assert HabitDays(after, habitId) == days + [t];
    SortNewestFirst(days, t);
    var sorted := SortDesc(days);
    if |days| > 0 {
      SortedHead(days, sorted);
    } else {
      assert |sorted| == 0 by { assert |multiset(sorted)| == 0; }
    }
    RunFromNewDay(sorted, t);
    assert SortDesc(HabitDays(after, habitId)) == [t] + sorted;
    assert Streak(after, habitId, today) == RunLength([t] + sorted, t);
    if |days| > 0 && Latest(days) == t - 1 {
      assert Streak(checkins, habitId, today) == RunLength(sorted, sorted[0]);
    }
  }

  /** A day newer than every sorted day starts a walk that goes on into the sorted days
      exactly when their newest is the day before it. */
  lemma RunFromNewDay(sorted: seq<int>, t: int)
    requires |sorted| > 0 ==> sorted[0] < t
    ensures RunLength([t] + sorted, t)
      == 1 + (if |sorted| > 0 && sorted[0] == t - 1 then RunLength(sorted, sorted[0]) else 0)
  {
    assert ([t] + sorted)[1..] == sorted;
  }

  /** The habit's days that fall in `[weekStart, weekEnd]`, both ends included. */
  function InWindow(days: seq<int>, weekStart: int, weekEnd: int): (w: seq<int>)
    ensures |w| <= |days|
    ensures forall n :: n in w <==> n in days && weekStart <= n <= weekEnd
    ensures forall n :: multiset(w)[n] == if weekStart <= n <= weekEnd then multiset(days)[n] else 0
  {
    if |days| == 0 then []
    else
      var last := days[|days| - 1];
      var init := days[..|days| - 1];
      assert days == init + [last];
      InWindow(init, weekStart, weekEnd) + (if weekStart <= last <= weekEnd then [last] else [])
  }

  lemma {:induction false} InWindowAppend(a: seq<int>, b: seq<int>, weekStart: int, weekEnd: int)
    ensures InWindow(a + b, weekStart, weekEnd) == InWindow(a, weekStart, weekEnd) + InWindow(b, weekStart, weekEnd)
    decreases |b|
  {
    if |b| > 0 {
      assert (a + b)[..|a + b| - 1] == a + b[..|b| - 1];
      InWindowAppend(a, b[..|b| - 1], weekStart, weekEnd);
    } else {
      assert a + b == a;
    }
  }

  /** A count of check-ins as a percentage of the week's seven days, computed exactly. */
  function Percent(count: nat): real {
    (count as real / 7.0) * 100.0
  }

  /** This week's progress: the habit's check-ins dated inside the week, over seven, as a
      percentage. Nothing caps it. */
  function WeeklyProgress(checkins: seq<Checkin>, habitId: string, weekStart: int, weekEnd: int): (p: real)
    ensures p == Percent(RowsInWeek(checkins, habitId, weekStart, weekEnd))
    ensures p >= 0.0
  {
    WindowCountsRows(checkins, habitId, weekStart, weekEnd);
    Percent(|InWindow(HabitDays(checkins, habitId), weekStart, weekEnd)|)
  }

  /** The check-in rows of one habit dated inside the week, both ends included, counted
      one by one. */
  function RowsInWeek(checkins: seq<Checkin>, habitId: string, weekStart: int, weekEnd: int): nat {
    if |checkins| == 0 then 0
    else
      var last := checkins[|checkins| - 1];
      RowsInWeek(checkins[..|checkins| - 1], habitId, weekStart, weekEnd)
        + (if last.habitId == habitId && weekStart <= DayNumber(last.date) <= weekEnd then 1 else 0)
  }

  lemma {:induction false} WindowCountsRows(checkins: seq<Checkin>, habitId: string, weekStart: int, weekEnd: int)
    ensures |InWindow(HabitDays(checkins, habitId), weekStart, weekEnd)| == RowsInWeek(checkins, habitId, weekStart, weekEnd)
  {
    if |checkins| > 0 {
      var init := checkins[..|checkins| - 1];
      var last := checkins[|checkins| - 1];
      WindowCountsRows(init, habitId, weekStart, weekEnd);
      var tail := if last.habitId == habitId then [DayNumber(last.date)] else [];
      assert HabitDays(checkins, habitId) == HabitDays(init, habitId) + tail;
      InWindowAppend(HabitDays(init, habitId), tail, weekStart, weekEnd);
      if last.habitId == habitId {
        var d := DayNumber(last.date);
        assert [d][..0] == [];
        assert InWindow([d], weekStart, weekEnd) == InWindow([], weekStart, weekEnd) + (if weekStart <= d <= weekEnd then [d] else []);
      }
    }
  }

  /** The percentage grows with the count, and is zero only for a count of zero. */
  lemma PercentMonotone(a: nat, b: nat)
    ensures a <= b ==> Percent(a) <= Percent(b)
    ensures Percent(a) == 0.0 <==> a == 0
  {
  }

  /** Progress is zero exactly when none of the habit's check-ins is dated inside the week. */
  lemma ProgressZeroIff(checkins: seq<Checkin>, habitId: string, weekStart: int, weekEnd: int)
    ensures WeeklyProgress(checkins, habitId, weekStart, weekEnd) == 0.0 <==>
      forall i :: 0 <= i < |checkins| && checkins[i].habitId == habitId ==>
        !(weekStart <= DayNumber(checkins[i].date) <= weekEnd)
  {
    var w := InWindow(HabitDays(checkins, habitId), weekStart, weekEnd);
    if |w| > 0 {
      HabitDaysMembers(checkins, habitId, w[0]);
    } else {
      forall i | 0 <= i < |checkins| && checkins[i].habitId == habitId
        ensures !(weekStart <= DayNumber(checkins[i].date) <= weekEnd)
      {
        HabitDaysMembers(checkins, habitId, DayNumber(checkins[i].date));
      }
    }
  }

  /** More check-ins never lower the week's progress. */
  lemma ProgressGrows(checkins: seq<Checkin>, more: seq<Checkin>, habitId: string, weekStart: int, weekEnd: int)
    ensures WeeklyProgress(checkins, habitId, weekStart, weekEnd)
         <= WeeklyProgress(checkins + more, habitId, weekStart, weekEnd)
  {
    HabitDaysAppend(checkins, more, habitId);
    InWindowAppend(HabitDays(checkins, habitId), HabitDays(more, habitId), weekStart, weekEnd);
  }

  /** Check-ins that are all one check-in give its day once for each. */
  lemma {:induction false} SameCheckinDays(cs: seq<Checkin>, c: Checkin)
    requires forall i :: 0 <= i < |cs| ==> cs[i] == c
    ensures HabitDays(cs, c.habitId) == Repeat(DayNumber(c.date), |cs|)
  {
    if |cs| > 0 {
      var init := cs[..|cs| - 1];
      SameCheckinDays(init, c);
      assert cs[|cs| - 1] == c;
      assert Repeat(DayNumber(c.date), |cs|) == Repeat(DayNumber(c.date), |cs| - 1) + [DayNumber(c.date)];
    }
  }

  lemma {:induction false} RepeatInWindow(n: int, k: nat, weekStart: int, weekEnd: int)
    requires weekStart <= n <= weekEnd
    ensures InWindow(Repeat(n, k), weekStart, weekEnd) == Repeat(n, k)
  {
    if k > 0 {
      RepeatInWindow(n, k - 1, weekStart, weekEnd);
      assert Repeat(n, k)[..k - 1] == Repeat(n, k - 1);
    }
  }

  /** Nothing de-duplicates or caps the count: eight check-ins of the habit on one day of
      the week put the progress above 100. */
  lemma DuplicatesExceedFullWeek(c: Checkin, weekStart: int, weekEnd: int)
    requires weekStart <= DayNumber(c.date) <= weekEnd
    ensures WeeklyProgress(Repeat(c, 8), c.habitId, weekStart, weekEnd) > 100.0
  {
    SameCheckinDays(Repeat(c, 8), c);
    RepeatInWindow(DayNumber(c.date), 8, weekStart, weekEnd);
  }

  /** The days `lo`, `lo + 1`, …, `lo + k - 1`. */
  function Days(lo: int, k: nat): (r: seq<int>)
    ensures |r| == k
    ensures forall i :: 0 <= i < k ==> r[i] == lo + i
  {
    seq(k, i => lo + i)
  }

  lemma {:induction false} DistinctSetSize(s: seq<int>)
    requires NoDuplicates(s)
    ensures |set n | n in s| == |s|
    decreases |s|
  {
    if |s| > 0 {
      var init := s[..|s| - 1];
      DistinctSetSize(init);
      assert s == init + [s[|s| - 1]];
      assert (set n | n in s) == (set n | n in init) + {s[|s| - 1]};
      assert s[|s| - 1] !in init;
    } else {
      assert (set n | n in s) == {};
    }
  }

  lemma SubsetSize<T>(a: set<T>, b: set<T>)
    requires a <= b
    ensures |a| <= |b|
    ensures |a| == |b| ==> a == b
  {
    assert b == a + (b - a);
    assert a * (b - a) == {};
    if |a| == |b| {
      assert |b - a| == 0;
    }
  }

  /** Every day from `lo` to `hi` is among `days`. */
  predicate Covers(days: seq<int>, lo: int, hi: int) {
    forall n :: lo <= n <= hi ==> n in days
  }

  /** With at most one check-in per day inside a seven-day week, progress stays within
      100, and reaches 100 exactly when every day of the week is checked in. */
  lemma ProgressFullWeek(checkins: seq<Checkin>, habitId: string, weekStart: int, weekEnd: int)
    requires weekEnd == weekStart + 6
    requires NoDuplicates(InWindow(HabitDays(checkins, habitId), weekStart, weekEnd))
    ensures WeeklyProgress(checkins, habitId, weekStart, weekEnd) <= 100.0
    ensures WeeklyProgress(checkins, habitId, weekStart, weekEnd) == 100.0 <==>
      Covers(HabitDays(checkins, habitId), weekStart, weekEnd)
  {
    var w := InWindow(HabitDays(checkins, habitId), weekStart, weekEnd);
    var range := Days(weekStart, 7);
    var present := set n | n in w;
    var week := set n | n in range;
    DistinctSetSize(w);
    DistinctSetSize(range);
    forall n | n in present
      ensures n in week
    {
      assert range[n - weekStart] == n;
    }
    SubsetSize(present, week);
    var days := HabitDays(checkins, habitId);
    if Covers(days, weekStart, weekEnd) {
      forall n | n in week
        ensures n in present
      {
        assert range[n - weekStart] == n;
        assert n in w;
      }
      SubsetSize(week, present);
      assert |w| == 7;
    }
    if |w| == 7 {
      assert present == week;
      forall n | weekStart <= n <= weekEnd
        ensures n in days
      {
        assert range[n - weekStart] == n;
        assert n in week;
      }
    }
    assert Percent(|w|) == 100.0 <==> |w| == 7;
  }

  /** A check-in of another habit, wherever it sits in the list, adds no day to this
      habit's days. */
  lemma HabitDaysSkipOther(checkins: seq<Checkin>, other: Checkin, at: int, habitId: string)
    requires 0 <= at <= |checkins|
    requires other.habitId != habitId
    ensures HabitDays(checkins[..at] + [other] + checkins[at..], habitId) == HabitDays(checkins, habitId)
  {
    HabitDaysAppend(checkins[..at], [other], habitId);
    HabitDaysAppend(checkins[..at] + [other], checkins[at..], habitId);
    HabitDaysAppend(checkins[..at], checkins[at..], habitId);
    assert checkins[..at] + checkins[at..] == checkins;
    assert [other][..0] == [];
  }

  /** Check-ins of other habits change neither the streak nor the weekly progress. */
  lemma OtherHabitsIgnored(checkins: seq<Checkin>, other: Checkin, at: int, habitId: string,
                           today: Date, weekStart: int, weekEnd: int)
    requires 0 <= at <= |checkins|
    requires other.habitId != habitId
    ensures var more := checkins[..at] + [other] + checkins[at..];
      && Streak(more, habitId, today) == Streak(checkins, habitId, today)
      && WeeklyProgress(more, habitId, weekStart, weekEnd) == WeeklyProgress(checkins, habitId, weekStart, weekEnd)
  {
    HabitDaysSkipOther(checkins, other, at, habitId);
  }

  /** A check-in of another habit does not make this habit checked in today. */
  lemma OtherHabitsIgnoredToday(checkins: seq<Checkin>, other: Checkin, at: int, habitId: string, today: Date)
    requires 0 <= at <= |checkins|
    requires other.habitId != habitId
    ensures IsCheckedToday(checkins[..at] + [other] + checkins[at..], habitId, today)
         == IsCheckedToday(checkins, habitId, today)
  {
    var more := checkins[..at] + [other] + checkins[at..];
    assert forall i :: 0 <= i < at ==> more[i] == checkins[i];
    assert forall i :: at <= i < |checkins| ==> more[i + 1] == checkins[i];
    assert more[at] == other;
    if IsCheckedToday(more, habitId, today) {
      var i :| 0 <= i < |more| && more[i].habitId == habitId && FormatKey(more[i].date) == FormatKey(today);
      if i > at {
        assert more[i] == checkins[i - 1];
      }
    }
  }
}
