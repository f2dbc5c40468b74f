/** The yearly activity heatmap: the optional habit filter, the per-date tally of
    check-ins, the colour and tooltip of one cell, and the arrangement of the year's days
    into columns of seven (Sunday on top), with placeholder cells before the first of
    January and after the thirty-first of December. The current year comes from the clock
    and is a parameter. */
module Heatmap {
  import opened Options
  import opened Digits
  import opened Calendar
  import opened Records
  import opened Seqs

  // ---------------------------------------------------------------------------------
  // Filter and tally
  // ---------------------------------------------------------------------------------

  /** The check-ins the heatmap counts: those of the selected habit when a habit id is
      selected, every check-in when none is. An empty id is falsy and counts as no
      selection, so every check-in is kept. */
  function Selected(checkins: seq<Checkin>, selected: Option<string>): (kept: seq<Checkin>)
    ensures selected.Some? && selected.value != "" ==>
      forall c :: multiset(kept)[c] == if c.habitId == selected.value then multiset(checkins)[c] else 0
    ensures selected.None? || selected.value == "" ==> kept == checkins
  {
    if selected.Some? && selected.value != "" then OfHabit(checkins, selected.value) else checkins
  }

  /** The date key of every check-in, in list order. */
  function Keys(checkins: seq<Checkin>): (keys: seq<string>)
    ensures |keys| == |checkins|
    ensures forall i :: 0 <= i < |checkins| ==> keys[i] == FormatKey(checkins[i].date)
  {
    seq(|checkins|, i requires 0 <= i < |checkins| => FormatKey(checkins[i].date))
  }

  /** How many of the check-ins carry this exact date key. */
  function KeyCount(checkins: seq<Checkin>, key: string): nat {
    multiset(Keys(checkins))[key]
  }

  /** The count read for a key: `checkinsByDate[key] || 0`. */
  function Lookup(tally: map<string, nat>, key: string): nat {
    if key in tally then tally[key] else 0
  }

  /** Appending a check-in adds one to its key's count and leaves every other count. */
  lemma KeyCountSnoc(checkins: seq<Checkin>, c: Checkin)
    ensures forall key ::
      KeyCount(checkins + [c], key) == KeyCount(checkins, key) + (if key == FormatKey(c.date) then 1 else 0)
  {
    assert Keys(checkins + [c]) == Keys(checkins) + [FormatKey(c.date)];
  }

  /** The `checkinsByDate` reduction: one entry per date key that occurs, holding how many
      check-ins carry it. */
  function Tally(checkins: seq<Checkin>): (tally: map<string, nat>)
    ensures forall key :: Lookup(tally, key) == KeyCount(checkins, key)
    ensures forall key :: key in tally ==> tally[key] >= 1
  {
    if |checkins| == 0 then map[]
    else
      var init := checkins[..|checkins| - 1];
      var last := checkins[|checkins| - 1];
      var before := Tally(init);
      var key := FormatKey(last.date);
      assert checkins == init + [last];
      KeyCountSnoc(init, last);
      before[key := Lookup(before, key) + 1]
  }

  /** The tally's counts over a list of keys. */
  function SumCounts(tally: map<string, nat>, keys: seq<string>): nat {
    if |keys| == 0 then 0 else Lookup(tally, keys[0]) + SumCounts(tally, keys[1..])
  }

  lemma {:induction false} SumEmpty(keys: seq<string>)
    ensures SumCounts(map[], keys) == 0
  {
    if |keys| > 0 {
      SumEmpty(keys[1..]);
    }
  }

  /** Raising one key's count by one raises the sum over distinct keys by one if the key
      is listed. */
  lemma {:induction false} SumBump(before: map<string, nat>, after: map<string, nat>, key: string, keys: seq<string>)
    requires NoDuplicates(keys)
    requires forall k :: Lookup(after, k) == Lookup(before, k) + (if k == key then 1 else 0)
    ensures SumCounts(after, keys) == SumCounts(before, keys) + (if key in keys then 1 else 0)
  {
    if |keys| > 0 {
      SumBump(before, after, key, keys[1..]);
      assert key in keys <==> key == keys[0] || key in keys[1..];
      if key == keys[0] {
        assert key !in keys[1..];
      }
    }
  }

  /** Summed over any duplicate-free list of keys that takes in every key present, the
      counts add up to the number of check-ins. */
  lemma {:induction false} TallyTotal(checkins: seq<Checkin>, keys: seq<string>)
    requires NoDuplicates(keys)
    requires forall key :: key in Tally(checkins) ==> key in keys
    ensures SumCounts(Tally(checkins), keys) == |checkins|
  {
    if |checkins| == 0 {
      SumEmpty(keys);
    } else {
      var init := checkins[..|checkins| - 1];
      var key := FormatKey(checkins[|checkins| - 1].date);
      assert checkins == init + [checkins[|checkins| - 1]];
      KeyCountSnoc(init, checkins[|checkins| - 1]);
      forall k | k in Tally(init)
        ensures k in keys
      {
        assert Lookup(Tally(init), k) >= 1;
        assert Lookup(Tally(checkins), k) >= 1;
      }
      TallyTotal(init, keys);
      assert Lookup(Tally(checkins), key) >= 1;
      SumBump(Tally(init), Tally(checkins), key, keys);
    }
  }

  /** With a habit selected, the tally is that habit's tally: other habits' check-ins
      count nowhere. */
  lemma SelectionCountsOnlyThatHabit(checkins: seq<Checkin>, habitId: string, key: string)
    requires habitId != ""
    ensures KeyCount(Selected(checkins, Some(habitId)), key)
         == KeyCount(OfHabit(checkins, habitId), key)
    ensures forall c :: c in Selected(checkins, Some(habitId)) ==> c.habitId == habitId
  {
    forall c | c in Selected(checkins, Some(habitId))
      ensures c.habitId == habitId
    {
      assert multiset(Selected(checkins, Some(habitId)))[c] > 0;
    }
  }

  /** A check-in dated in another year adds to no key of the year's days. */
  lemma OutOfYearReachesNoCell(checkins: seq<Checkin>, c: Checkin, year: int, i: int)
    requires 0 <= year <= 9999
    requires Representable(c.date) && c.date.year != year
    requires 0 <= i < DaysInYear(year)
    ensures KeyCount(checkins + [c], FormatKey(YearDays(year)[i])) == KeyCount(checkins, FormatKey(YearDays(year)[i]))
  {
    var d := YearDays(year)[i];
    KeyInjective(c.date, d);
    KeyCountSnoc(checkins, c);
  }

  // ---------------------------------------------------------------------------------
  // One cell
  // ---------------------------------------------------------------------------------

  /** The background classes a cell can get: `bg-muted/20` and four greens. */
  datatype Shade = Muted | Green200 | Green400 | Green600 | Green800

  /** The colour of a day with `count` check-ins: none, one, two, three or more. */
  function Intensity(count: int): (shade: Shade)
    ensures shade == Muted <==> count == 0
    ensures count >= 3 ==> shade == Green600
    ensures shade == Green800 <==> count < 0
  {
    if count == 0 then Muted
    else if count == 1 then Green200
    else if count == 2 then Green400
    else if count >= 3 then Green600
    else Green800
  }

  /** How dark a shade is. */
  function Depth(shade: Shade): nat {
    match shade
    case Muted => 0
    case Green200 => 1
    case Green400 => 2
    case Green600 => 3
    case Green800 => 4
  }

  /** For real counts the shade's depth is the count, saturated at three; so more
      check-ins never give a lighter cell, and the darkest class never shows. */
  lemma IntensitySaturates(a: int, b: int)
    requires 0 <= a <= b
    ensures Depth(Intensity(a)) == if a < 3 then a else 3
    ensures Depth(Intensity(a)) <= Depth(Intensity(b))
    ensures Intensity(a) != Green800
  {
  }

  /** The hover text of a day: its date, then either "No activity" or the count with
      "habit" pluralised. The date text itself (`MMM d, yyyy`) is a parameter. */
  function Tooltip(dateText: string, count: nat): (text: string)
    ensures |text| > |dateText| + 2
    ensures text[..|dateText| + 2] == dateText + ": "
    ensures text[|dateText| + 2..] == "No activity" <==> count == 0
  {
    dateText + ": " + (if count == 0 then "No activity" else Activity(count))
  }

  function Activity(count: nat): (text: string)
    requires count > 0
  {
    Decimal(count) + (if count > 1 then " habits completed" else " habit completed")
  }

  /** A non-zero tooltip reads back: its leading digits are the count, and the noun is
      singular exactly for one. */
  lemma TooltipReadsBack(dateText: string, count: nat)
    requires count > 0
    ensures var tail := Tooltip(dateText, count)[|dateText| + 2..];
      var n := |Decimal(count)|;
      && n <= |tail|
      && AllDigits(tail[..n])
      && ParseDigits(tail[..n]) == count
      && (tail[n..] == " habit completed" <==> count == 1)
      && (tail[n..] == " habits completed" <==> count > 1)
  {
    var tail := Tooltip(dateText, count)[|dateText| + 2..];
    assert tail == Activity(count);
    var n := |Decimal(count)|;
    assert tail[..n] == Decimal(count);
    DecimalRoundTrip(count);
    if count == 1 {
      assert tail[n..] != " habits completed";
    } else {
      assert tail[n..] != " habit completed";
    }
  }

  // ---------------------------------------------------------------------------------
  // Weeks
  // ---------------------------------------------------------------------------------

  function Wrap<T>(s: seq<T>): (cells: seq<Option<T>>)
    ensures |cells| == |s|
    ensures forall i :: 0 <= i < |s| ==> cells[i] == Some(s[i])
  {
    seq(|s|, i requires 0 <= i < |s| => Some(s[i]))
  }

  /** The weeks read column after column. */
  function Flatten<T>(weeks: seq<seq<T>>): seq<T> {
    if |weeks| == 0 then [] else Flatten(weeks[..|weeks| - 1]) + weeks[|weeks| - 1]
  }

  /** The real days among the cells, in order. */
  function Reals<T>(cells: seq<Option<T>>): seq<T> {
    if |cells| == 0 then []
    else
      var last := cells[|cells| - 1];
      Reals(cells[..|cells| - 1]) + (if last.Some? then [last.value] else [])
  }

  /** What position `p` of the grid, counted column after column, holds when the year
      starts `lead` cells down its first column. */
  function Slot<T>(days: seq<T>, lead: nat, p: int): Option<T> {
    if lead <= p < lead + |days| then Some(days[p - lead]) else None
  }

  predicate Columns<T>(weeks: seq<seq<T>>) {
    forall w :: 0 <= w < |weeks| ==> |weeks[w]| == 7
  }

  lemma {:induction false} FlattenColumns<T>(weeks: seq<seq<T>>, w: int, j: int)
    requires Columns(weeks)
    ensures |Flatten(weeks)| == 7 * |weeks|
    ensures 0 <= w < |weeks| && 0 <= j < 7 ==> Flatten(weeks)[7 * w + j] == weeks[w][j]
  {
    if |weeks| > 0 {
      var init := weeks[..|weeks| - 1];
      FlattenColumns(init, w, j);
    }
  }

  lemma {:induction false} RealsAppend<T>(a: seq<Option<T>>, b: seq<Option<T>>)
    ensures Reals(a + b) == Reals(a) + Reals(b)
    decreases |b|
  {
    if |b| > 0 {
      var init := b[..|b| - 1];
      assert (a + b)[..|a + b| - 1] == a + init;
      RealsAppend(a, init);
    } else {
      assert a + b == a;
    }
  }

  lemma {:induction false} RealsOfBlank<T>(k: nat)
    ensures Reals(Repeat<Option<T>>(None, k)) == []
  {
    if k > 0 {
      assert Repeat<Option<T>>(None, k)[..k - 1] == Repeat<Option<T>>(None, k - 1);
      RealsOfBlank<T>(k - 1);
    }
  }

  lemma {:induction false} RealsOfWrap<T>(s: seq<T>)
    ensures Reals(Wrap(s)) == s
  {
    if |s| > 0 {
      assert Wrap(s)[..|s| - 1] == Wrap(s[..|s| - 1]);
      RealsOfWrap(s[..|s| - 1]);
    }
  }

  lemma CellSlot<T>(cells: seq<Option<T>>, days: seq<T>, lead: nat, pad: nat, p: int)
    requires cells == Repeat(None, lead) + Wrap(days) + Repeat(None, pad)
    requires 0 <= p < |cells|
    ensures cells[p] == Slot(days, lead, p)
  {
    var front := Repeat<Option<T>>(None, lead) + Wrap(days);
    if p < lead {
      assert cells[p] == front[p] == Repeat<Option<T>>(None, lead)[p];
    } else if p < lead + |days| {
      assert cells[p] == front[p] == Wrap(days)[p - lead];
    } else {
      assert cells[p] == Repeat<Option<T>>(None, pad)[p - |front|];
    }
  }

  /** Placeholders, days, placeholders laid out in full columns put every cell in its
      slot, and leave the days in order once the placeholders are dropped. */
  lemma ColumnsHoldSlots<T>(weeks: seq<seq<Option<T>>>, days: seq<T>, lead: nat, pad: nat)
    requires Columns(weeks)
    requires Flatten(weeks) == Repeat(None, lead) + Wrap(days) + Repeat(None, pad)
    ensures 7 * |weeks| == lead + |days| + pad
    ensures forall w, j :: 0 <= w < |weeks| && 0 <= j < 7 ==> weeks[w][j] == Slot(days, lead, 7 * w + j)
    ensures Reals(Flatten(weeks)) == days
  {
    FlattenColumns(weeks, 0, 0);
    SlotsOfColumns(weeks, days, lead, pad);
    RealsOfLayout(days, lead, pad);
  }

  lemma SlotsOfColumns<T>(weeks: seq<seq<Option<T>>>, days: seq<T>, lead: nat, pad: nat)
    requires Columns(weeks)
    requires Flatten(weeks) == Repeat(None, lead) + Wrap(days) + Repeat(None, pad)
    ensures forall w, j :: 0 <= w < |weeks| && 0 <= j < 7 ==> weeks[w][j] == Slot(days, lead, 7 * w + j)
  {
    forall w, j | 0 <= w < |weeks| && 0 <= j < 7
      ensures weeks[w][j] == Slot(days, lead, 7 * w + j)
    {
      FlattenColumns(weeks, w, j);
      CellSlot(Flatten(weeks), days, lead, pad, 7 * w + j);
    }
  }

  lemma RealsOfLayout<T>(days: seq<T>, lead: nat, pad: nat)
    ensures Reals(Repeat<Option<T>>(None, lead) + Wrap(days) + Repeat<Option<T>>(None, pad)) == days
  {
    RealsAppend(Repeat<Option<T>>(None, lead) + Wrap(days), Repeat<Option<T>>(None, pad));
    RealsAppend(Repeat<Option<T>>(None, lead), Wrap(days));
    RealsOfBlank<T>(lead);
    RealsOfBlank<T>(pad);
    RealsOfWrap(days);
    assert [] + days + [] == days;
  }

  /** The `forEach` over the days: the first column starts with `lead` placeholders (the
      weekday of the first day), every day is appended in order, and each column that
      reaches seven cells is closed. Returns the closed columns and the open one. */
  method FillColumns<T>(days: seq<T>, lead: nat) returns (weeks: seq<seq<Option<T>>>, current: seq<Option<T>>)
    requires lead < 7
    ensures Columns(weeks)
    ensures |current| < 7
    ensures |days| == 0 ==> weeks == [] && current == []
    ensures |days| > 0 ==> Flatten(weeks) + current == Repeat(None, lead) + Wrap(days)
  {
    weeks := [];
    current := [];
    var i := 0;
    while i < |days|
      invariant 0 <= i <= |days|
      invariant Columns(weeks)
      invariant |current| < 7
      invariant i == 0 ==> weeks == [] && current == []
      invariant i > 0 ==> Flatten(weeks) + current == Repeat(None, lead) + Wrap(days[..i])
    {
      if i == 0 {
        var k := 0;
        while k < lead
          invariant 0 <= k <= lead
          invariant current == Repeat(None, k)
        {
          current := current + [None];
          k := k + 1;
        }
        assert Flatten(weeks) == [];
      }
      var cell := Some(days[i]);
      assert days[..i + 1] == days[..i] + [days[i]];
      assert Wrap(days[..i + 1]) == Wrap(days[..i]) + [cell];
      assert Flatten(weeks) + current == Repeat(None, lead) + Wrap(days[..i]);
      assert Flatten(weeks) + (current + [cell]) == (Flatten(weeks) + current) + [cell];
      current := current + [cell];
      if |current| == 7 {
        assert (weeks + [current])[..|weeks|] == weeks;
        assert Flatten(weeks + [current]) == Flatten(weeks) + current;
        weeks := weeks + [current];
        current := [];
        assert Flatten(weeks) + current == Flatten(weeks);
      }
      i := i + 1;
    }
    assert days[..i] == days;
  }

  /** The week grouping: `FillColumns`, then a last partial column padded with
      placeholders to seven cells. No days give no columns. */
  method GroupWeeks<T>(days: seq<T>, lead: nat) returns (weeks: seq<seq<Option<T>>>)
    requires lead < 7
    ensures Columns(weeks)
    ensures |days| == 0 ==> weeks == []
    ensures |days| > 0 ==> |weeks| == (lead + |days| + 6) / 7
    ensures forall w, j :: 0 <= w < |weeks| && 0 <= j < 7 ==> weeks[w][j] == Slot(days, lead, 7 * w + j)
    ensures Reals(Flatten(weeks)) == days
  {
    var current;
    weeks, current := FillColumns(days, lead);
    var pad := 0;
    if |current| > 0 {
      while |current| < 7
        invariant 0 < |current| <= 7
        invariant Flatten(weeks) + current == Repeat(None, lead) + Wrap(days) + Repeat(None, pad)
        decreases 7 - |current|
      {
        assert Repeat<Option<T>>(None, pad + 1) == Repeat<Option<T>>(None, pad) + [None];
        assert Flatten(weeks) + (current + [None]) == (Flatten(weeks) + current) + [None];
        current := current + [None];
        pad := pad + 1;
      }
      assert (weeks + [current])[..|weeks|] == weeks;
      assert Flatten(weeks + [current]) == Flatten(weeks) + current;
      weeks := weeks + [current];
    } else if |days| > 0 {
      assert Repeat(None, lead) + Wrap(days) + Repeat<Option<T>>(None, 0) == Flatten(weeks);
    }
    if |days| > 0 {
      ColumnsHoldSlots(weeks, days, lead, pad);
    } else {
      assert Flatten(weeks) == [];
    }
  }

  // ---------------------------------------------------------------------------------
  // The grid
  // ---------------------------------------------------------------------------------

  /** A real cell: the day, its check-in count and its colour. */
  datatype Cell = Cell(date: Date, count: nat, shade: Shade)

  function Paint(day: Option<Date>, tally: map<string, nat>): Option<Cell> {
    match day
    case None => None
    case Some(d) =>
      var count := Lookup(tally, FormatKey(d));
      Some(Cell(d, count, Intensity(count)))
  }

  /** The heatmap of `year`: columns of seven cells, the year's days in order from the
      weekday of the first of January, each real cell coloured by the number of counted
      check-ins carrying its exact date key. */
  method BuildHeatmap(checkins: seq<Checkin>, selected: Option<string>, year: int)
    returns (grid: seq<seq<Option<Cell>>>)
    ensures var lead := Weekday(YearStart(year));
      |grid| == (lead + DaysInYear(year) + 6) / 7
    ensures forall w :: 0 <= w < |grid| ==> |grid[w]| == 7
    ensures forall w, j :: 0 <= w < |grid| && 0 <= j < 7 ==>
      var p := 7 * w + j - Weekday(YearStart(year));
      && (grid[w][j].Some? <==> 0 <= p < DaysInYear(year))
      && (grid[w][j].Some? ==>
            && grid[w][j].value.date == YearDays(year)[p]
            && grid[w][j].value.count == KeyCount(Selected(checkins, selected), FormatKey(YearDays(year)[p]))
            && grid[w][j].value.shade == Intensity(grid[w][j].value.count))
  {
    var lead := Weekday(YearStart(year));
    var dates := GroupWeeks(YearDays(year), lead);
    var tally := Tally(Selected(checkins, selected));
    grid := seq(|dates|, w requires 0 <= w < |dates| =>
      seq(7, j requires 0 <= j < 7 => Paint(dates[w][j], tally)));
  }
}
