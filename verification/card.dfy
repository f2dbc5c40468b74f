/** The decisions a habit card makes from the values the page passes it: the colour of
    the streak number, the colour a progress value would get, the caption under the
    streak, the check-in button's state and text, the small state machine that keeps a
    second check-in from starting while one is in flight, and which goal widget shows. */
module HabitCardView {
  import opened Options
  import opened Records

  /** The streak number's text colour: muted, blue, green or yellow. */
  datatype StreakTier = StreakMuted | StreakBlue | StreakGreen | StreakYellow

  function StreakColor(streak: int): (tier: StreakTier)
    ensures tier == StreakYellow <==> streak >= 30
    ensures tier == StreakGreen <==> 7 <= streak < 30
    ensures tier == StreakBlue <==> 3 <= streak < 7
    ensures tier == StreakMuted <==> streak < 3
  {
    if streak >= 30 then StreakYellow
    else if streak >= 7 then StreakGreen
    else if streak >= 3 then StreakBlue
    else StreakMuted
  }

  function StreakRank(tier: StreakTier): nat {
    match tier
    case StreakMuted => 0
    case StreakBlue => 1
    case StreakGreen => 2
    case StreakYellow => 3
  }

  /** A longer streak never gets a lower colour tier. */
  lemma StreakColorMonotone(a: int, b: int)
    requires a <= b
    ensures StreakRank(StreakColor(a)) <= StreakRank(StreakColor(b))
  {
  }

  /** The colour a progress percentage gets: muted, yellow, blue or green. The card
      defines it but renders the progress bar without it. */
  datatype ProgressTier = ProgressMuted | ProgressYellow | ProgressBlue | ProgressGreen

  function ProgressColor(progress: real): (tier: ProgressTier)
    ensures tier == ProgressGreen <==> progress >= 100.0
    ensures tier == ProgressBlue <==> 75.0 <= progress < 100.0
    ensures tier == ProgressYellow <==> 50.0 <= progress < 75.0
    ensures tier == ProgressMuted <==> progress < 50.0
  {
    if progress >= 100.0 then ProgressGreen
    else if progress >= 75.0 then ProgressBlue
    else if progress >= 50.0 then ProgressYellow
    else ProgressMuted
  }

  function ProgressRank(tier: ProgressTier): nat {
    match tier
    case ProgressMuted => 0
    case ProgressYellow => 1
    case ProgressBlue => 2
    case ProgressGreen => 3
  }

  /** More progress never gets a lower colour tier. */
  lemma ProgressColorMonotone(a: real, b: real)
    requires a <= b
    ensures ProgressRank(ProgressColor(a)) <= ProgressRank(ProgressColor(b))
  {
  }

  /** The caption after the streak number: "day" pluralised unless the streak is one. */
  function StreakCaption(streak: int): (caption: string)
    ensures caption == "day streak" <==> streak == 1
    ensures caption == "days streak" <==> streak != 1
  {
    "day" + (if streak != 1 then "s" else "") + " streak"
  }

  /** The check-in button is disabled once the habit is checked in today and while a
      check-in is in flight. */
  function ButtonDisabled(checkedToday: bool, checking: bool): bool {
    checkedToday || checking
  }

  /** The button text: an ellipsis while checking in, then "Done" or "Check In". */
  function ButtonLabel(checkedToday: bool, checking: bool): (text: string)
    ensures text == "..." <==> checking
    ensures text == "Done" <==> !checking && checkedToday
    ensures text == "Check In" <==> !checking && !checkedToday
  {
    if checking then "..." else if checkedToday then "Done" else "Check In"
  }

  /** The button can be pressed exactly when it reads "Check In"; reading "Done" or the
      ellipsis means it is disabled. */
  lemma EnabledMeansCheckIn(checkedToday: bool, checking: bool)
    ensures !ButtonDisabled(checkedToday, checking) <==> ButtonLabel(checkedToday, checking) == "Check In"
  {
  }

  /** What happens to the card: a press of the check-in button, or the page's check-in
      handler settling. */
  datatype Event = Press | Settle

  /** One event. A press on an enabled button sets `checking` and asks the page to check
      in this habit; a press on a disabled button fires nothing. Settling clears
      `checking`. Returns the new `checking` and the request, if any. */
  function Step(checking: bool, checkedToday: bool, habitId: string, e: Event): (r: (bool, Option<string>))
    ensures r.1.Some? <==> e == Press && !ButtonDisabled(checkedToday, checking)
    ensures r.1.Some? ==> r.1.value == habitId && r.0
    ensures e == Settle ==> !r.0
    ensures e == Press && ButtonDisabled(checkedToday, checking) ==> r == (checking, None)
  {
    match e
    case Press =>
      if ButtonDisabled(checkedToday, checking) then (checking, None) else (true, Some(habitId))
    case Settle => (false, None)
  }

  /** Replays events from a state and counts the check-in requests made. */
  function Replay(checking: bool, checkedToday: bool, habitId: string, events: seq<Event>): (r: (bool, nat))
    decreases |events|
  {
    if |events| == 0 then (checking, 0)
    else
      var (next, call) := Step(checking, checkedToday, habitId, events[0]);
      var (final, calls) := Replay(next, checkedToday, habitId, events[1..]);
      (final, calls + (if call.Some? then 1 else 0))
  }

  function Settles(events: seq<Event>): nat {
    if |events| == 0 then 0 else (if events[0] == Settle then 1 else 0) + Settles(events[1..])
  }

  /** While a check-in is in flight no other starts: every request but the first needs a
      settle before it, so requests never outnumber settles plus one, and none is made
      from a state that is already checking until a settle comes. A habit already
      checked in today gets no request at all. */
  lemma {:induction false} OneCheckInInFlight(checking: bool, checkedToday: bool, habitId: string, events: seq<Event>)
    ensures Replay(checking, checkedToday, habitId, events).1 <= Settles(events) + (if checking then 0 else 1)
    ensures checkedToday ==> Replay(checking, checkedToday, habitId, events).1 == 0
    ensures Replay(checking, checkedToday, habitId, events).1 > 0 ==> !checkedToday
    decreases |events|
  {
    if |events| > 0 {
      var (next, call) := Step(checking, checkedToday, habitId, events[0]);
      OneCheckInInFlight(next, checkedToday, habitId, events[1..]);
    }
  }

  /** The widget under the streak: the weekly progress bar or the daily ring, whose
      arc is drawn full (dash 88) once the habit is checked in today. */
  datatype GoalWidget = WeeklyBar(progress: real) | DailyRing(dash: int, checked: bool)

  /** The two guarded blocks of the card body, in order. */
  function Widgets(goal: GoalType, progress: real, checkedToday: bool): (ws: seq<GoalWidget>)
    ensures |ws| == 1
    ensures ws[0].WeeklyBar? <==> goal == Weekly
    ensures ws[0].WeeklyBar? ==> ws[0].progress == progress
    ensures ws[0].DailyRing? ==> (ws[0].dash == 88 <==> checkedToday) && (ws[0].dash == 0 <==> !checkedToday)
    ensures ws[0].DailyRing? ==> ws[0].checked == checkedToday
  {
    (if goal == Weekly then [WeeklyBar(progress)] else [])
      + (if goal == Daily then [DailyRing(if checkedToday then 88 else 0, checkedToday)] else [])
  }
}
