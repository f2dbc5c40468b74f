/** The achievement catalog, the two points where the tracker decides which badges a user
    has just earned (after a check-in, from the streak; after creating a habit, from the
    habit list), and the achievement panel that shows the catalog against the user's
    unlocked badges. Inserting the decided badges into the store is not modelled: the
    decisions return the titles to insert. */
module Badges {
  import opened Options
  import opened Records

  /** A catalog entry. The title identifies the badge everywhere (the store keeps only the
      title; the panel keys its tiles by it). */
  datatype BadgeDef = BadgeDef(title: string, description: string, requirement: nat)

  const StreakStarter: string := "Streak Starter"
  const ConsistencyChamp: string := "Consistency Champ"
  const HabitHero: string := "Habit Hero"
  const CenturyClub: string := "Century Club"

  /** The fixed list of achievements, in display order. */
  const Catalog: seq<BadgeDef> := [
    BadgeDef(StreakStarter, "Complete a 7-day streak", 7),
    BadgeDef(ConsistencyChamp, "Complete a 30-day streak", 30),
    BadgeDef(HabitHero, "Create your first habit", 1),
    BadgeDef(CenturyClub, "Complete a 100-day streak", 100)
  ]

  predicate InCatalog(title: string) {
    exists i :: 0 <= i < |Catalog| && Catalog[i].title == title
  }

  /** The catalog has four entries with pairwise distinct titles (so the panel's keys are
      unique) and the requirements its descriptions quote. */
  lemma CatalogShape()
    ensures |Catalog| == 4
    ensures forall i, j :: 0 <= i < j < |Catalog| ==> Catalog[i].title != Catalog[j].title
    ensures Catalog[0].requirement == 7 && Catalog[1].requirement == 30
    ensures Catalog[2].requirement == 1 && Catalog[3].requirement == 100
  {
  }

  /** The user already holds a badge with this title. */
  predicate Holds(badges: seq<Badge>, title: string) {
    exists i :: 0 <= i < |badges| && badges[i].title == title
  }

  /** The badges to create after a check-in, given the habit's streak and the badges the
      user holds: a milestone is reached only by an exact match with 7 or 30, and a title
      already held is skipped. */
  function StreakBadges(streak: int, held: seq<Badge>): (emitted: seq<string>)
    ensures StreakStarter in emitted <==> streak == 7 && !Holds(held, StreakStarter)
    ensures ConsistencyChamp in emitted <==> streak == 30 && !Holds(held, ConsistencyChamp)
    ensures |emitted| <= 1
    ensures streak != 7 && streak != 30 ==> emitted == []
    ensures HabitHero !in emitted && CenturyClub !in emitted
    ensures forall t :: t in emitted ==> t == StreakStarter || t == ConsistencyChamp
    ensures forall t :: t in emitted ==> InCatalog(t) && !Holds(held, t)
  {
    var starter := if streak == 7 && !Holds(held, StreakStarter) then [StreakStarter] else [];
    var champ := if streak == 30 && !Holds(held, ConsistencyChamp) then [ConsistencyChamp] else [];
    assert Catalog[0].title == StreakStarter && Catalog[1].title == ConsistencyChamp;
    starter + champ
  }

  /** The badge to create after a habit is created: "Habit Hero" when the insert
      succeeded, the habit list (as loaded before the insert) was empty and the user does
      not hold the title yet. A failed insert raises before the check. */
  function HabitHeroBadges(created: bool, habits: seq<Habit>, held: seq<Badge>): (emitted: seq<string>)
    ensures HabitHero in emitted <==> created && |habits| == 0 && !Holds(held, HabitHero)
    ensures |emitted| <= 1
    ensures forall t :: t in emitted ==> t == HabitHero && InCatalog(t) && !Holds(held, t)
  {
    assert Catalog[2].title == HabitHero;
    if created && |habits| == 0 && !Holds(held, HabitHero) then [HabitHero] else []
  }

  /** The rows the store holds once the decided titles are inserted for `userId`; the
      store assigns the ids. */
  function Granted(titles: seq<string>, userId: string, ids: seq<string>): (rows: seq<Badge>)
    requires |ids| == |titles|
    ensures |rows| == |titles|
    ensures forall i :: 0 <= i < |rows| ==> rows[i].title == titles[i] && rows[i].userId == userId
  {
    seq(|titles|, i requires 0 <= i < |titles| => Badge(ids[i], userId, titles[i]))
  }

  lemma HoldsAppend(a: seq<Badge>, b: seq<Badge>, title: string)
    ensures Holds(a + b, title) <==> Holds(a, title) || Holds(b, title)
  {
    if Holds(b, title) {
      var i :| 0 <= i < |b| && b[i].title == title;
      assert (a + b)[|a| + i] == b[i];
    }
    if Holds(a, title) {
      var i :| 0 <= i < |a| && a[i].title == title;
      assert (a + b)[i] == a[i];
    }
    if Holds(a + b, title) && !Holds(a, title) {
      var i :| 0 <= i < |a + b| && (a + b)[i].title == title;
      assert b[i - |a|] == (a + b)[i];
    }
  }

  /** Once the badges a check-in decided on are stored, evaluating the same streak again
      decides on nothing: a milestone badge is never awarded twice. */
  lemma StreakBadgesOnce(streak: int, held: seq<Badge>, userId: string, ids: seq<string>)
    requires |ids| == |StreakBadges(streak, held)|
    ensures StreakBadges(streak, held + Granted(StreakBadges(streak, held), userId, ids)) == []
  {
    var emitted := StreakBadges(streak, held);
    var rows := Granted(emitted, userId, ids);
    var again := StreakBadges(streak, held + rows);
    if |again| > 0 {
      var t := again[0];
      assert t in again;
      HoldsAppend(held, rows, t);
      assert false;
    }
  }

  /** Every title either decision can produce is a catalog title. */
  lemma DecidedTitlesInCatalog(streak: int, created: bool, habits: seq<Habit>, held: seq<Badge>)
    ensures forall t :: t in StreakBadges(streak, held) + HabitHeroBadges(created, habits, held) ==> InCatalog(t)
  {
    forall t | t in StreakBadges(streak, held) + HabitHeroBadges(created, habits, held)
      ensures InCatalog(t)
    {
      if t in StreakBadges(streak, held) {
      } else {
        assert t in HabitHeroBadges(created, habits, held);
      }
    }
  }

  /** One tile of the achievement panel. `marker` is the "Unlocked!" tag. */
  datatype Tile = Tile(entry: BadgeDef, unlocked: bool, marker: Option<string>)

  /** The titles of the user's badges, in the order the store returned them. */
  function UnlockedTitles(badges: seq<Badge>): (titles: seq<string>)
    ensures |titles| == |badges|
    ensures forall i :: 0 <= i < |badges| ==> titles[i] == badges[i].title
  {
    seq(|badges|, i requires 0 <= i < |badges| => badges[i].title)
  }

  function TileFor(entry: BadgeDef, titles: seq<string>): Tile {
    var unlocked := entry.title in titles;
    Tile(entry, unlocked, if unlocked then Some("Unlocked!") else None)
  }

  /** The panel: every catalog entry once, in catalog order, unlocked exactly when the
      user holds a badge with that title, and tagged exactly when unlocked. */
  function Tiles(badges: seq<Badge>): (tiles: seq<Tile>)
    ensures |tiles| == |Catalog|
    ensures forall i :: 0 <= i < |tiles| ==> tiles[i].entry == Catalog[i]
    ensures forall i :: 0 <= i < |tiles| ==> (tiles[i].unlocked <==> Holds(badges, Catalog[i].title))
    ensures forall i :: 0 <= i < |tiles| ==> (tiles[i].marker == Some("Unlocked!") <==> tiles[i].unlocked)
    ensures forall i :: 0 <= i < |tiles| ==> (tiles[i].marker.None? <==> !tiles[i].unlocked)
  {
    var titles := UnlockedTitles(badges);
    var tiles := seq(|Catalog|, i requires 0 <= i < |Catalog| => TileFor(Catalog[i], titles));
    assert forall i :: 0 <= i < |tiles| ==> (tiles[i].unlocked <==> Holds(badges, Catalog[i].title)) by {
      forall i | 0 <= i < |tiles|
        ensures tiles[i].unlocked <==> Holds(badges, Catalog[i].title)
      {
        if Catalog[i].title in titles {
          var k :| 0 <= k < |titles| && titles[k] == Catalog[i].title;
          assert badges[k].title == Catalog[i].title;
        }
        if Holds(badges, Catalog[i].title) {
          var k :| 0 <= k < |badges| && badges[k].title == Catalog[i].title;
          assert titles[k] == Catalog[i].title;
        }
      }
    }
    tiles
  }

  /** The panel depends only on which titles the user holds: not on the order of the
      badges, nor on duplicates. */
  lemma TilesDependOnTitlesOnly(a: seq<Badge>, b: seq<Badge>)
    requires forall t :: Holds(a, t) <==> Holds(b, t)
    ensures Tiles(a) == Tiles(b)
  {
    var ta, tb := Tiles(a), Tiles(b);
    forall i | 0 <= i < |ta|
      ensures ta[i] == tb[i]
    {
      assert Holds(a, Catalog[i].title) <==> Holds(b, Catalog[i].title);
    }
  }

  /** A badge whose title is not in the catalog changes nothing on the panel. */
  lemma ForeignBadgeIgnored(badges: seq<Badge>, other: Badge)
    requires !InCatalog(other.title)
    ensures Tiles(badges + [other]) == Tiles(badges)
  {
    var ta, tb := Tiles(badges + [other]), Tiles(badges);
    forall i | 0 <= i < |ta|
      ensures ta[i] == tb[i]
    {
      HoldsAppend(badges, [other], Catalog[i].title);
      assert Catalog[i].title != other.title;
      assert !Holds([other], Catalog[i].title);
    }
  }

  /** A badge just decided on shows as unlocked once it is stored. */
  lemma GrantedShowsUnlocked(streak: int, held: seq<Badge>, userId: string, ids: seq<string>, i: int)
    requires |ids| == |StreakBadges(streak, held)|
    requires 0 <= i < |Catalog|
    requires Catalog[i].title in StreakBadges(streak, held)
    ensures Tiles(held + Granted(StreakBadges(streak, held), userId, ids))[i].unlocked
    ensures !Tiles(held)[i].unlocked
  {
    var emitted := StreakBadges(streak, held);
    var rows := Granted(emitted, userId, ids);
    var k :| 0 <= k < |emitted| && emitted[k] == Catalog[i].title;
    assert rows[k].title == Catalog[i].title;
    HoldsAppend(held, rows, Catalog[i].title);
  }
}
