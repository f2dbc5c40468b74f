# HabitForge streak keeper — a Dafny model of its client-side logic

HabitForge is a habit tracker: users create daily or weekly habits, check each one in
once a day, and earn achievement badges. The page controller keeps every habit,
check-in and badge row in memory. From these rows it derives what the user sees. This
project models those derivations as pure Dafny functions and methods and proves
properties about them:

- **Streak engine** (`streak.dfy`, with `sorting.dfy` and `calendar.dfy`):
  - the current streak: sort newest first, apply a one-day grace period, then walk the
    consecutive days;
  - whether a habit is checked in today, compared by its `yyyy-MM-dd` date key;
  - the check-in guard;
  - this week's progress percentage.
- **Badges** (`badges.dfy`):
  - the four-entry achievement catalog;
  - the milestone decision after a check-in (exact matches with 7 and 30);
  - the "Habit Hero" decision after the first habit is created;
  - the achievement panel, where a badge is unlocked exactly when its title is held.
- **Heatmap** (`heatmap.dfy`):
  - the optional habit filter and the per-date-key tally;
  - the saturating colour scale and the tooltip text;
  - the grouping of the year's days into columns of seven, with placeholder cells
    (`None`) before the first of January and after the last day.
- **Habit card** (`card.dfy`):
  - the streak and progress colour tiers and the "day"/"days" caption;
  - the check-in button's state and text;
  - the `isChecking` state machine, which keeps a second check-in from starting while
    one is in flight;
  - the goal widget, a weekly bar or a daily ring.
- **Habit form** (`form.dfy`):
  - the create/edit dialog's initial fields;
  - trimming and the blank-name guard;
  - the payload, and the reset after creating or after closing a create dialog;
  - its texts and the submit button state.

Shared pieces: `records.dfy` holds the fetched rows and the per-habit filter,
`options.dfy` the optional value, `digits.dfy` decimal digit strings, and `seqs.dfy`
the no-duplicates predicate and sequences of one repeated value.

Dates are `Calendar.Date` values in the proleptic Gregorian calendar. `DayNumber`
counts days from 1970-01-01, as `Date.getTime` does in whole days. A check-in's stored
`date` string is modelled as `FormatKey(date)`, the extended form of an ISO 8601
calendar date (`yyyy-MM-dd`). `KeyRoundTrip` and `KeyInjective` show that comparing
keys compares dates for four-digit years. Values that come from the clock are
parameters: today, the first and last day of the current week, and the current year.
Values that come from the store are inputs, and each decision returns what the page
would insert.

Nothing de-duplicates repeated check-ins of one day, and nothing caps weekly progress
at 100:

- `StreakStopsAtFirstRepeat` shows that the first repeated day of the run ends the
  streak there; `StreakStopsAtRepeatedNewest` and `RepeatedDayExample` show a repeated
  newest day ending the streak at one.
- `DuplicatesExceedFullWeek` shows eight check-ins on one day of the week giving more
  than 100.
- Weekly progress is therefore proved to stay within 100 only when no day is repeated
  (`ProgressFullWeek`).

## Model

| member | source | states |
|---|---|---|
| Calendar.YearDays | src/components/HabitHeatmap.tsx:16-19 | the days listed between the first and last day of a year are 365 or 366 real dates of that year (the Gregorian leap rule), one per consecutive day number |
| Calendar.YearDaysComplete | src/components/HabitHeatmap.tsx:17-19 | every real date of a year occurs in that year's day list, at its day-of-year position |
| Calendar.YearLength | src/components/HabitHeatmap.tsx:17-19 | the closed-form start of each year and the leap rule agree: each year ends where the next begins |
| Calendar.DayNumberInjective | src/pages/Index.tsx:92 | two real dates have the same day number exactly when they are the same date |
| Calendar.EpochAnchors | src/components/HabitHeatmap.tsx:54 | day 0 is 1970-01-01, a Thursday (weekday 4, Sunday = 0); 2024-01-01 is day 19723, a Monday |
| Calendar.FormatKey | src/pages/Index.tsx:122 | a date key has ten characters with dashes at positions 4 and 7 |
| Calendar.KeyRoundTrip | src/pages/Index.tsx:92 | parsing the `yyyy-MM-dd` key of a real date with a four-digit year gives back that date |
| Calendar.KeyInjective | src/pages/Index.tsx:123 | for such dates, two keys are equal exactly when the dates are equal |
| Digits.PaddedRoundTrip | src/pages/Index.tsx:122 | a zero-padded field reads back as its number whenever the number fits the width |
| Digits.Decimal | src/components/HabitHeatmap.tsx:44 | a count prints as digits only, with no leading zero, and zero prints as `0` |
| Digits.DecimalRoundTrip | src/components/HabitHeatmap.tsx:44 | a printed count reads back as the count |
| Sorting.Latest | src/pages/Index.tsx:102 | the newest day is one of the days and no day is newer |
| Sorting.SortDesc | src/pages/Index.tsx:93 | the habit's days sorted newest first are a permutation of them, in non-increasing order |
| Sorting.SortedUnique | src/pages/Index.tsx:93 | only one arrangement of the same days is sorted newest first, so the order the rows arrive in cannot matter |
| Sorting.SortedHead | src/pages/Index.tsx:102 | the head of any newest-first arrangement is the latest day |
| StreakEngine.HabitDaysOfRows | src/pages/Index.tsx:90-92 | the habit's days are the dates of the habit's check-in rows, one day per row and in list order, so a day checked in twice appears twice |
| StreakEngine.HabitDaysMembers | src/pages/Index.tsx:90-92 | a day is among a habit's days exactly when one of that habit's check-ins is dated on it |
| StreakEngine.HabitDaysPermutation | src/pages/Index.tsx:90-92 | reordering the check-in rows permutes the habit's days |
| StreakEngine.RunLength | src/pages/Index.tsx:107-116 | the walk counts the leading days equal to newest, newest − 1, … and the first day that breaks the pattern stops it |
| StreakEngine.CalculateStreak | src/pages/Index.tsx:89-119 | the page's sort, grace check and loop compute exactly the streak |
| StreakEngine.StreakZeroIff | src/pages/Index.tsx:95-105 | the streak is zero exactly when the habit has no check-ins or its newest one is more than one day before today |
| StreakEngine.StreakBounded | src/pages/Index.tsx:95-116 | the streak never exceeds the number of the habit's check-ins |
| StreakEngine.MaximalRunOfDistinctDays | src/pages/Index.tsx:107-116 | on distinct days, the walk from the newest day covers a run of days that are all present, and the day before the run is absent |
| StreakEngine.StreakIsMaximalRun | src/pages/Index.tsx:95-116 | with one check-in per day and no broken streak, the streak is at least one and is the length of the maximal run newest, newest − 1, … of checked-in days |
| StreakEngine.StreakStopsAtRepeatedNewest | src/pages/Index.tsx:108-115 | a newest day checked in twice is not merged: the walk stops at one |
| StreakEngine.StreakStopsAtFirstRepeat | src/pages/Index.tsx:107-116 | when the days newest, newest − 1, …, newest − k are present, those before newest − k once each and newest − k twice or more, the streak is exactly k + 1 |
| StreakEngine.RepeatedDayExample | src/pages/Index.tsx:108-115 | the history [D, D, D − 1] has a streak of one on day D |
| StreakEngine.StreakIgnoresOrder | src/pages/Index.tsx:90-93 | the streak does not depend on the order of the check-in rows |
| StreakEngine.IsCheckedToday | src/pages/Index.tsx:121-124 | a habit is checked in today exactly when one of its check-ins has today's date key |
| StreakEngine.CheckedTodayByDate | src/pages/Index.tsx:121-124 | for real dates with four-digit years, that is exactly when one of its check-ins is dated today |
| StreakEngine.CheckInRow | src/pages/Index.tsx:140-150 | a check-in click inserts nothing when the habit is checked in today; otherwise it inserts a row of that habit dated today |
| StreakEngine.CheckInOncePerDay | src/pages/Index.tsx:141-150 | once the inserted row is in the list, the habit is checked in today and a second click inserts nothing |
| StreakEngine.SortNewestFirst | src/pages/Index.tsx:90-93 | a day newer than every other goes to the head of the sorted days |
| StreakEngine.CheckInExtendsStreak | src/pages/Index.tsx:140-150 | checking in today extends a streak that ended yesterday by one, and otherwise starts a streak of one |
| StreakEngine.InWindow | src/pages/Index.tsx:130-135 | a day is kept exactly when it is one of the habit's days and lies in the week, both ends included, and it is kept as many times as it occurs |
| StreakEngine.WindowCountsRows | src/pages/Index.tsx:126-135 | filtering the habit's days by the week keeps one day for each of the habit's check-in rows dated inside the week |
| StreakEngine.WeeklyProgress | src/pages/Index.tsx:126-138 | progress is the number of the habit's check-in rows dated inside the week, both ends included and repeats counted, over seven, times 100; it is never negative |
| StreakEngine.PercentMonotone | src/pages/Index.tsx:137 | the percentage grows with the count and is zero only for a count of zero |
| StreakEngine.ProgressZeroIff | src/pages/Index.tsx:126-138 | progress is zero exactly when no check-in of the habit is dated inside the week |
| StreakEngine.ProgressGrows | src/pages/Index.tsx:126-138 | adding check-ins never lowers the week's progress |
| StreakEngine.DuplicatesExceedFullWeek | src/pages/Index.tsx:126-138 | nothing de-duplicates or caps: eight check-ins on one day of the week give more than 100 |
| StreakEngine.ProgressFullWeek | src/pages/Index.tsx:126-138 | with no day repeated in a seven-day week, progress is at most 100, and is exactly 100 when every day of the week is checked in |
| StreakEngine.HabitDaysSkipOther | src/pages/Index.tsx:90-91 | a check-in of another habit adds no day to this habit's days, wherever it sits |
| StreakEngine.OtherHabitsIgnored | src/pages/Index.tsx:89-138 | check-ins of other habits change neither the streak nor the weekly progress |
| StreakEngine.OtherHabitsIgnoredToday | src/pages/Index.tsx:121-124 | check-ins of other habits do not change the today flag |
| Badges.CatalogShape | src/components/BadgeDisplay.tsx:15-44 | the catalog has four entries with distinct titles, requiring 7, 30, 1 and 100 |
| Badges.StreakBadges | src/pages/Index.tsx:182-187 | "Streak Starter" is decided exactly at streak 7 and "Consistency Champ" exactly at 30, each only when not held; at most one title is decided; "Habit Hero" and "Century Club" never are; every decided title is in the catalog |
| Badges.HabitHeroBadges | src/pages/Index.tsx:228-238 | "Habit Hero" is decided exactly when the insert succeeded, the habit list was empty and the title is not held |
| Badges.StreakBadgesOnce | src/pages/Index.tsx:182-196 | once the decided badges are stored, the same streak decides nothing more |
| Badges.DecidedTitlesInCatalog | src/pages/Index.tsx:182-237 | every title either decision can produce is a catalog title |
| Badges.UnlockedTitles | src/components/BadgeDisplay.tsx:47 | the unlocked titles are the user's badge titles, in order |
| Badges.Tiles | src/components/BadgeDisplay.tsx:47-92 | each catalog entry is shown once, in catalog order; it is unlocked exactly when the user holds its title, and carries the "Unlocked!" tag exactly when unlocked |
| Badges.TilesDependOnTitlesOnly | src/components/BadgeDisplay.tsx:47-60 | the panel depends only on which titles are held, not on the order of the badges or on duplicates |
| Badges.ForeignBadgeIgnored | src/components/BadgeDisplay.tsx:59-60 | a badge whose title is not in the catalog changes nothing on the panel |
| Badges.GrantedShowsUnlocked | src/components/BadgeDisplay.tsx:60 | a badge just decided was locked before and shows as unlocked once stored |
| Records.OfHabit | src/components/HabitHeatmap.tsx:23 | the filter keeps every check-in of the habit as often as it occurs, and nothing else |
| Records.OfHabitAppend | src/components/HabitHeatmap.tsx:23 | the filter keeps list order: filtering two lists in turn gives the first list's kept rows, then the second's |
| Records.OfHabitSnoc | src/components/HabitHeatmap.tsx:23 | a row appended to the list is appended to the kept rows exactly when it belongs to the habit |
| Heatmap.Selected | src/components/HabitHeatmap.tsx:22-24 | with a non-empty habit id only that habit's check-ins are counted; with none or an empty one, all are |
| Heatmap.SelectionCountsOnlyThatHabit | src/components/HabitHeatmap.tsx:22-24 | with a habit selected, every counted check-in belongs to it |
| Heatmap.KeyCountSnoc | src/components/HabitHeatmap.tsx:28-29 | one more check-in adds one to its own date key's count and leaves every other count unchanged |
| Heatmap.Tally | src/components/HabitHeatmap.tsx:27-31 | the count read for each key is the number of counted check-ins with that exact date key; keys present have counts of at least one |
| Heatmap.TallyTotal | src/components/HabitHeatmap.tsx:27-31 | the counts over all keys present add up to the number of counted check-ins |
| Heatmap.OutOfYearReachesNoCell | src/components/HabitHeatmap.tsx:130-131 | a check-in dated in another year changes the count of no day of the shown year |
| Heatmap.Intensity | src/components/HabitHeatmap.tsx:33-39 | 0 maps to the muted class, 3 or more to green-600, and green-800 only to negative counts |
| Heatmap.IntensitySaturates | src/components/HabitHeatmap.tsx:33-39 | for real counts the shade's depth is the count saturated at three, monotone, and never green-800 |
| Heatmap.Tooltip | src/components/HabitHeatmap.tsx:41-45 | the text starts with the date, then reads "No activity" exactly when the count is zero |
| Heatmap.TooltipReadsBack | src/components/HabitHeatmap.tsx:44 | a non-zero tooltip's digits read back as the count, and the noun is "habit" exactly for one and "habits" above one |
| Heatmap.FlattenColumns | src/components/HabitHeatmap.tsx:62-65 | columns of seven read in order put cell j of column w at position 7w + j |
| Heatmap.ColumnsHoldSlots | src/components/HabitHeatmap.tsx:51-75 | placeholders, days, then placeholders laid out in full columns put each cell in its slot, and dropping the placeholders leaves the days in order |
| Heatmap.FillColumns | src/components/HabitHeatmap.tsx:51-66 | the day loop leaves closed columns of seven, plus an open column shorter than seven, holding the leading placeholders and then every day in order |
| Heatmap.GroupWeeks | src/components/HabitHeatmap.tsx:48-75 | every column has seven cells; there are ⌈(lead + days) / 7⌉ columns; cell p holds a placeholder before `lead` and after the last day and the (p − lead)-th day in between; without placeholders every day appears once, in order |
| Heatmap.BuildHeatmap | src/components/HabitHeatmap.tsx:15-131 | the grid for a year has ⌈(weekday of 1 January + days in year) / 7⌉ columns of seven; a cell is real exactly for the year's days, from the first column's weekday on; its count is the number of counted check-ins with its date key; its colour is that count's intensity |
| HabitCardView.StreakColor | src/components/HabitCard.tsx:44-49 | yellow from 30, green from 7 to 29, blue from 3 to 6, muted below 3 |
| HabitCardView.StreakColorMonotone | src/components/HabitCard.tsx:44-49 | a longer streak never gets a lower colour tier |
| HabitCardView.ProgressColor | src/components/HabitCard.tsx:51-56 | green from 100, blue in [75, 100), yellow in [50, 75), muted below 50 |
| HabitCardView.ProgressColorMonotone | src/components/HabitCard.tsx:51-56 | more progress never gets a lower colour tier |
| HabitCardView.StreakCaption | src/components/HabitCard.tsx:103 | the caption reads "day" exactly for a streak of one, otherwise "days" |
| HabitCardView.ButtonLabel | src/components/HabitCard.tsx:119 | the button reads "..." exactly while checking, otherwise "Done" when checked today and "Check In" when not |
| HabitCardView.EnabledMeansCheckIn | src/components/HabitCard.tsx:109-119 | the button is enabled exactly when it reads "Check In" |
| HabitCardView.Step | src/components/HabitCard.tsx:36-42 | a press requests a check-in of this habit only when the button is enabled, and then sets `checking`; a press on a disabled button fires nothing and leaves `checking` as it was; settling clears it |
| HabitCardView.OneCheckInInFlight | src/components/HabitCard.tsx:36-42 | requests never outnumber settles plus one, so no second check-in starts while one is in flight; a habit checked in today gets none |
| HabitCardView.Widgets | src/components/HabitCard.tsx:124-171 | exactly one goal widget shows: the weekly bar for weekly goals, the daily ring otherwise, whose dash is 88 when checked today and 0 when not, and whose highlight and check icon show exactly when checked today |
| HabitForm.Trim | src/components/HabitForm.tsx:43 | the trimmed name is a slice of the name, what it drops at either end is whitespace, and it neither starts nor ends with whitespace |
| HabitForm.TrimEmptyIff | src/components/HabitForm.tsx:43 | a name trims to nothing exactly when it is all whitespace |
| HabitForm.TrimIdempotent | src/components/HabitForm.tsx:46 | trimming a trimmed name changes nothing |
| HabitForm.Init | src/components/HabitForm.tsx:38-39 | a freshly mounted dialog starts with the edited habit's name and goal, or with an empty name and a daily goal |
| HabitForm.ReusedDialogEditIgnored | src/pages/Index.tsx:410-419 | a dialog reused for an edit after its fields were cleared ignores submit and keeps its button disabled |
| HabitForm.Submit | src/components/HabitForm.tsx:41-55 | a blank name sends nothing and changes nothing; otherwise the trimmed name and goal are sent, a create dialog clears its fields and an edit dialog keeps them |
| HabitForm.OpenChange | src/components/HabitForm.tsx:57-64 | the new open state is always passed on; fields are cleared exactly when a create dialog closes |
| HabitForm.SentNameIsClean | src/components/HabitForm.tsx:45-48 | a sent name is not empty, has no whitespace at either end and is its own trim |
| HabitForm.CreateThenResubmit | src/components/HabitForm.tsx:50-54 | after creating, a second submit of the cleared dialog sends nothing |
| HabitForm.SubmitIgnoredIff | src/components/HabitForm.tsx:43 | a submit is ignored exactly when the name is all whitespace |
| HabitForm.SubmitButtonMatchesGuard | src/components/HabitForm.tsx:118 | an enabled submit button is never ignored; when not saving, the button is disabled exactly for the names the handler ignores |
| HabitForm.Title | src/components/HabitForm.tsx:71 | the title is "Edit Habit" exactly in edit mode |
| HabitForm.SubmitLabel | src/components/HabitForm.tsx:119 | the button reads "Saving..." while saving, otherwise "Update Habit" in edit mode and "Create Habit" in create mode |
| HabitForm.TextsAgreeOnMode | src/components/HabitForm.tsx:71-119 | the title says "Edit Habit" exactly when the idle button says "Update Habit" |

## Left out

- All store traffic is outside the model: queries, inserts, updates, deletes and the re-fetches after each write. Fetched lists are inputs, and the rows to insert are outputs.
- Authentication, navigation, toasts, sign-out and loading spinners are not modelled.
- JSX layout and styling are not modelled beyond the class or tier chosen. Month and weekday labels are not modelled. The tooltip's `MMM d, yyyy` date text is a parameter.
- React state timing is not modelled. The badge decision reads the `checkins` captured before `setCheckins`, so the streak is an input to `StreakBadges`.
- `Replay` holds `checkedToday` fixed. The page's re-fetch, which flips it after a check-in, is outside the card.
- The internals of date-fns and JavaScript `Date` are not modelled:
  - Time zones are not modelled.
  - The UTC-versus-local mismatch between `new Date("yyyy-MM-dd")` and `setHours(0, 0, 0, 0)` is not modelled. Both are one calendar day number here.
  - The locale behind `startOfWeek` is not modelled. The week's bounds are parameters.
  - In a UTC time zone in 1970, the page would take the first of January for a placeholder, because it compares `getTime()` with 0. The model's placeholders are `None` and cannot collide.
- Floating point is not modelled. Progress is an exact `real`, count × 100 / 7. `Math.round` for the displayed percentage is not modelled.
- Calendar.FormatKey: keeps only the last four digits of the year and the last two of the day. The key round trip is proved only for real dates of years 0 to 9999, which covers every date the page writes. For year 0 it writes "0000", where date-fns' `yyyy` writes the era year "0001"; no date from the clock falls in year 0.
- Calendar.DayNumber: lets a day past the end of its month run on into the next month, as `Date.UTC` does. Whether `new Date` accepts such a string is not modelled.
- HabitForm.IsSpace: covers space, tab, line feed, vertical tab, form feed, carriage return and no-break space. It does not cover the rest of the Unicode whitespace that `String.prototype.trim` removes.
- HabitForm.Init: gives the fields a freshly mounted dialog starts with. The page mounts one dialog without a `key` (src/pages/Index.tsx:410-419) and starting an edit only changes its `habit` prop, while `useState` reads its initial value only on mount. So an edit dialog opens with the fields the dialog last held, usually the cleared empty name and daily goal, and not with the habit's. `ReusedDialogEditIgnored` states the visible effect: such a dialog ignores submit and keeps its button disabled until a name is typed.
- Implicit form submission is not modelled. The browser skips it while the submit button is disabled.
- Store-assigned ids and timestamps are not modelled. Ids are parameters, and timestamps only order the fetched lists.
