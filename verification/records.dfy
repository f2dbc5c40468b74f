/** The rows the habit tracker fetches from its store, reduced to the fields the
    derivations read. Creation and unlock timestamps only order the fetched lists and
    label the cards, so they are not carried. */
module Records {
  import opened Calendar

  datatype GoalType = Daily | Weekly

  datatype Habit = Habit(id: string, name: string, goal: GoalType, userId: string)

  /** One check-in: the habit it belongs to and the calendar date it was made for. */
  datatype Checkin = Checkin(id: string, habitId: string, date: Date)

  /** An unlocked achievement, identified by its title. */
  datatype Badge = Badge(id: string, userId: string, title: string)

  /** The check-ins of one habit, in list order. */
  function OfHabit(checkins: seq<Checkin>, habitId: string): (kept: seq<Checkin>)
    ensures forall c :: multiset(kept)[c] == if c.habitId == habitId then multiset(checkins)[c] else 0
  {
    if |checkins| == 0 then []
    else
      var init := checkins[..|checkins| - 1];
      var last := checkins[|checkins| - 1];
      assert checkins == init + [last];
      OfHabit(init, habitId) + (if last.habitId == habitId then [last] else [])
  }

  /** The filter keeps list order: filtering two lists one after the other gives the
      first list's kept rows, then the second's. */
  lemma {:induction false} OfHabitAppend(a: seq<Checkin>, b: seq<Checkin>, habitId: string)
    ensures OfHabit(a + b, habitId) == OfHabit(a, habitId) + OfHabit(b, habitId)
  {
    if |b| == 0 {
      assert a + b == a;
    } else {
      var init, last := b[..|b| - 1], b[|b| - 1];
      assert b == init + [last];
      assert a + b == (a + init) + [last];
      OfHabitAppend(a, init, habitId);
      OfHabitSnoc(a + init, last, habitId);
      OfHabitSnoc(init, last, habitId);
      Regroup(OfHabit(a, habitId), OfHabit(init, habitId), if last.habitId == habitId then [last] else []);
    }
  }

  lemma {:induction false} OfHabitSnoc(s: seq<Checkin>, c: Checkin, habitId: string)
    ensures OfHabit(s + [c], habitId) == OfHabit(s, habitId) + (if c.habitId == habitId then [c] else [])
  {
    assert (s + [c])[..|s|] == s;
  }

  /** Regrouping a concatenation, stated on its own so that the filter's contracts stay
      out of the proof. */
  lemma {:induction false} Regroup(x: seq<Checkin>, y: seq<Checkin>, z: seq<Checkin>)
    ensures (x + y) + z == x + (y + z)
  {
  }
}
