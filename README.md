# Attendance tracker core, modelled in Dafny

This project models the data core of a React Native habit tracker for spiritual activities
(Mass, Confession, Rosary, Prayer and user-defined ones). It covers:

- the session held by the root component (`App.js`): the activity list, the selected activity,
  the set of attended-day keys and the celebration record, with one method per event handler;
- the attendance store: string keys `${activityId}-${year}-${month}-${day}` with a zero-based
  month, the toggle, the lifetime and monthly prefix counts, and the purge when an activity is
  deleted;
- the milestone rule that picks the celebration message;
- the per-activity calendar view: membership, header counts and unit, month length, cell grid;
- the older single-activity tracker with its own `${year}-${month}-${day}` keys;
- the add-activity draft in the activity picker.

The store is modelled on strings, as the app keeps it. Beside it sits a structured key
`DayKey(activityId, year, month, day)` with its encoding `KeyString`. For hyphen-free activity
ids, lemmas show that the string store behaves like a set of structured keys. Encoding is
injective. Toggle and purge commute with encoding. The lifetime count is the number of the
activity's keys. Every built-in id is hyphen-free, and so is every clock-derived id
(`Date.now().toString()`).

The monthly prefix `${id}-${year}-${month}` has no trailing `-`. The model keeps that and proves
what it means. For real months 0..11 it counts exactly the month, except for February (month 1).
February's count also takes in November and December (months 10 and 11) of the same year.
`Tracker.FebruaryCountsNovember` gives a concrete instance. In the app itself keys are only made
for the current month, so within one session the overlap would need the clock to run backwards.

Three behaviours of the code are kept as written:

- a toggle that adds a key records a visible celebration even when no activity has the id; its
  `activity` is then `None`;
- the monthly count is the prefix count above, not an exact month match;
- `App.js` has no sign-out or reset handler, so none is modelled.

Inputs that come from outside are parameters:

- the clock: year, zero-based month, day of month, and milliseconds for new ids;
- the weekday of the first of the month;
- the answer of the delete confirmation dialog.

## Model

| member | source | states |
|---|---|---|
| Activities.DefaultActivitiesFacts | App.js:9-38 | there are four built-ins, none custom, their ids are distinct and hyphen-free, and their names are non-empty |
| Activities.Find | App.js:78 | `find` returns a listed activity with the id, and returns nothing exactly when no activity has the id |
| Activities.FindFirst | App.js:97 | the activity `find` returns is the first one with the id |
| Activities.FindListed | App.js:97-101 | with unique ids, looking up a listed activity's id finds that activity |
| Activities.RemoveById | App.js:113 | the filter keeps exactly the activities whose id differs; with the id absent, the list is unchanged |
| Activities.RemoveByIdAt | App.js:113 | with unique ids, deleting the id at position i gives the list without that position, the rest in order |
| Activities.RemoveByIdKeepsUnique | App.js:113 | the filter keeps ids unique |
| Activities.First | App.js:124 | `newActivities[0]`: nothing exactly for an empty list, otherwise its first activity |
| Strings.Digits | App.js:61 | `${n}` is a non-empty run of decimal digits with no leading zero |
| Strings.ParseDigitsRoundTrip | App.js:61 | reading the digits back gives the number, so the number text is injective |
| Attendance.DateKey | components/MassTracker.js:30 | the date key `${year}-${month}-${day}` starts with `${year}-${month}-`, so it is counted in its month; `DateKeyInjective` shows it determines the date |
| Attendance.KeyString | App.js:61 | the stored key `${id}-${year}-${month}-${day}` starts with the activity prefix `${id}-` and with its month prefix `${id}-${year}-${month}`, so it is counted in both; `KeyStringInjective` shows it determines the day |
| Attendance.ActivityCount | App.js:52-54 | the lifetime count is at most the number of keys and is zero exactly when no key starts with `${id}-`; `ActivityCountOfEncoded` gives its value over structured keys |
| Attendance.MonthCount | components/ActivityTracker.js:83-85 | the monthly count is at most the number of keys and is zero exactly when no key starts with `${id}-${year}-${month}`; `MonthCountOfEncoded` gives its value over structured keys |
| Attendance.KeyStringInjective | App.js:61 | for hyphen-free ids, the key string determines activity, year, month and day |
| Attendance.SameActivityKeysDiffer | components/ActivityTracker.js:28 | two days of one activity share a key only when they are the same date, whatever the id |
| Attendance.Toggle | App.js:63-70 | the toggled key's membership flips and every other key's membership is unchanged |
| Attendance.ToggleTwice | App.js:63-70 | toggling the same key twice restores the set |
| Attendance.ToggleActivityCount | App.js:76-77 | an adding toggle raises the activity's lifetime count by one, and a removing toggle lowers it by one |
| Attendance.ToggleOtherActivityCount | App.js:61-70 | a toggle leaves the lifetime count of every other hyphen-free activity unchanged |
| Attendance.ToggleOfEncoded | App.js:61-70 | the string toggle is the structured toggle seen through the encoding |
| Attendance.KeyMatchesActivity | App.js:53 | for hyphen-free ids a key starts with `${a}-` exactly when its activity is `a` |
| Attendance.ActivityCountOfEncoded | App.js:52-54 | over structured keys with hyphen-free ids, the lifetime count is the number of the activity's keys |
| Attendance.Purge | App.js:117-119 | the purge keeps exactly the keys without the `${id}-` prefix, so the deleted activity's count drops to zero |
| Attendance.PurgeKeepsOthers | App.js:117-119 | the purge keeps every key, and the lifetime count, of every other hyphen-free activity |
| Attendance.PurgeOfEncoded | App.js:117-119 | the string purge is the removal of the activity's structured keys |
| Attendance.MonthCountAtMostActivityCount | components/ActivityTracker.js:83-90 | the monthly count never exceeds the lifetime count |
| Attendance.DateMatchesMonth | components/MassTracker.js:100 | `${y}-${m}` starts a date key exactly when the years agree and the digits of m start the key's month digits |
| Attendance.KeyMatchesMonth | components/ActivityTracker.js:84 | the same for the activity month prefix, also requiring the activity to agree |
| Attendance.MonthDigitsPrefix | components/ActivityTracker.js:84 | among months 0..11, the digits of m start those of m' exactly when m' = m, or m = 1 and m' is 10 or 11 |
| Attendance.MonthCountOfEncoded | components/ActivityTracker.js:83-85 | over structured keys with real months, the monthly count is the number of that year's keys of the activity whose month the digits select |
| Milestones.MilestoneIndex | components/CelebrationModal.js:139-143 | the chosen index is the highest threshold at or below the count, or -1 when there is none |
| Milestones.MessageFor | components/CelebrationModal.js:130-144 | the message is the fallback exactly when the count is below 1, and it is always one of the seven fixed strings |
| Milestones.GetMessage | components/CelebrationModal.js:128-145 | the top-down scan returns the message of the highest threshold at or below the count, or "Well done!" below 1 |
| Milestones.MilestoneMonotone | components/CelebrationModal.js:130-143 | a larger count never selects a lower milestone |
| Milestones.MessageExamples | components/CelebrationModal.js:130-137 | 0 gives "Well done!"; 1 and 4 give "Great start!"; 5, 10, 25 and 50 give their own messages |
| Milestones.MessageFromHundred | components/CelebrationModal.js:136-141 | every count of 100 or more gives "Truly inspiring!" |
| App.Session.constructor | App.js:41-49 | a session starts with the four built-ins, Mass selected, no keys and a hidden, empty celebration |
| App.Session.GetActivityCount | App.js:52-54 | the session's lifetime count of an activity is at most the number of keys and is zero exactly when no key starts with `${id}-` |
| App.Session.ToggleDay | App.js:57-87 | the day's key flips and nothing else changes, except that an add records a visible celebration; its activity is the `find` result, which may be absent; oldCount is the pre-toggle lifetime count; newCount is oldCount + 1, the post-toggle count; a removal leaves the celebration as it was |
| App.Session.AddActivity | App.js:90-93 | the activity is appended and selected; the keys and the celebration are unchanged; a fresh id keeps ids unique |
| App.Session.SelectActivity | App.js:137 | a tab tap selects that activity and changes nothing else |
| App.Session.DeleteActivity | App.js:96-130 | a missing or built-in activity is refused, and an unconfirmed delete is cancelled; both change nothing. A confirmed delete removes the activity (others kept in order) and purges its keys. It leaves its count at zero and the id unfindable. The selection falls back to the first remaining activity exactly when the deleted one was selected. With unique ids, a built-in id is refused and no built-in is ever removed |
| App.BuiltinSurvives | App.js:99-101 | with unique ids, no built-in shares its id with the custom activity being deleted |
| App.Session.CloseCelebration | App.js:153 | dismissal clears only `visible` and keeps activity, oldCount and newCount |
| App.ToggleTwiceRestores | App.js:57-87 | two taps on one day restore the key set and leave activities and selection alone; exactly one of them adds and celebrates: the first, with counts old → old + 1, when the day was unmarked, the second when it was marked |
| Tracker.IsAttended | components/ActivityTracker.js:27-30 | a marked day makes both the monthly and the lifetime count of the activity positive; `TapFlipsOnlyThatDay` shows a tap flips exactly that day |
| Tracker.HeaderFor | components/ActivityTracker.js:83-104 | the header's total is the session's lifetime count, its monthly count never exceeds it, and the unit is "day" exactly when the monthly count is 1 |
| Tracker.DayUnit | components/ActivityTracker.js:104 | the unit is "day" exactly when the count is 1, otherwise "days" |
| Tracker.DaysInMonth | components/ActivityTracker.js:15 | the length of a zero-based month: February has 29 days in Gregorian leap years and 28 otherwise; other months follow the alternating 31/30 rule that switches at August |
| Tracker.YearLength | components/ActivityTracker.js:15 | the twelve month lengths add up to 366 in leap years and 365 otherwise |
| Tracker.RenderCalendar | components/ActivityTracker.js:38-80 | the grid is firstDayOfMonth blanks, then one cell per day 1..DaysInMonth(year, month) in order. Each cell shows whether its day is marked and whether it is today. Each reports `(activity.id, its own day)` when tapped |
| Tracker.TapFlipsOnlyThatDay | components/ActivityTracker.js:64 | dispatching a cell's tap flips the mark of that day and of no other day of the month |
| Tracker.MonthCountSelectsMonth | components/ActivityTracker.js:83-85 | over structured keys with real months, the monthly count is exact for every month except February, whose count also includes November and December |
| Tracker.FebruaryCountsNovember | components/ActivityTracker.js:84 | a marked 5 November is counted in the February count of the same year |
| Mass.MassTracker.constructor | components/MassTracker.js:5 | the set starts empty |
| Mass.MassTracker.IsAttended | components/MassTracker.js:43-46 | a marked date makes the monthly count positive; `ToggleFlipsOnlyThatDate` shows a toggle flips exactly that date |
| Mass.MassTracker.MonthAttendanceCount | components/MassTracker.js:99-101 | the monthly count is at most the number of keys and is zero exactly when no key starts with `${year}-${month}`; `MonthCountOfDates` gives its value over dates |
| Mass.MassTracker.ToggleDay | components/MassTracker.js:29-40 | the date key `${y}-${m}-${d}` is removed when present and added otherwise |
| Mass.ToggleFlipsOnlyThatDate | components/MassTracker.js:29-46 | after a toggle, `isAttended` flips for that date and for no other date |
| Mass.ToggleTwiceRestores | components/MassTracker.js:29-40 | two toggles of one day restore the set |
| Mass.MonthCountOfDates | components/MassTracker.js:99-101 | over dates with real months, the monthly count is the number of that year's dates whose month the digits select (February also takes November and December) |
| Selector.ActivitySelector.constructor | components/ActivitySelector.js:5-7 | the draft starts with the modal hidden, an empty name and color #673AB7 |
| Selector.ActivitySelector.OpenModal | components/ActivitySelector.js:63 | "+ Add" shows the modal and keeps the draft |
| Selector.ActivitySelector.ChangeName | components/ActivitySelector.js:84 | typing replaces the draft name |
| Selector.ActivitySelector.PickColor | components/ActivitySelector.js:98 | a swatch tap sets the draft color |
| Selector.ActivitySelector.RequestClose | components/ActivitySelector.js:74 | the back button hides the modal and keeps the draft |
| Selector.ActivitySelector.HandleAddActivity | components/ActivitySelector.js:18-29 | a blank name emits nothing and changes nothing. Otherwise it emits one custom activity with the clock id, the trimmed name and the draft color, clears the name and closes the modal, keeping the color. The emitted name is non-empty and already trimmed, and its id is hyphen-free |
| Selector.ActivitySelector.Cancel | components/ActivitySelector.js:106-109 | Cancel hides the modal and clears the name, keeping the color |
| Selector.Trim | components/ActivitySelector.js:19 | the trimmed name is no longer than the name, has no whitespace at either end, and is empty exactly when the name is all whitespace; `TrimCutsEnds` gives its content |
| Selector.TrimCutsEnds | components/ActivitySelector.js:19-22 | the trimmed name is a slice `s[a..b]` of the name with only whitespace before `a` and after `b`: the name with its leading and trailing whitespace cut off |
| Selector.TrimmedIsTrimmed | components/ActivitySelector.js:22 | trimming again changes nothing |
| Selector.ActivitySelector.AddEnabled | components/ActivitySelector.js:118-121 | the Add button is enabled exactly when the name holds a non-whitespace character, the same test Add applies |
| Selector.ClockId | components/ActivitySelector.js:21 | the new id is the digit text of the clock's milliseconds: non-empty, hyphen-free, and read back as that number |
| Selector.LongPressDelete | components/ActivitySelector.js:47 | a long press requests deletion, of that activity's id, exactly when the activity is custom |
| Selector.LongPressReachesConfirmation | components/ActivitySelector.js:47 | with unique ids, a long-press request always names a custom activity that the session's delete finds, so it reaches the confirmation |
| Selector.IsActiveTab | components/ActivitySelector.js:43 | the selected activity's own tab is drawn active, and with nothing selected no tab is |
| Selector.AtMostOneActiveTab | components/ActivitySelector.js:43 | with unique ids, at most one tab is drawn active |

## Left out

- The clock (`new Date()`, `Date.now()`) is not modelled. Year, zero-based month, day of month and milliseconds are parameters.
- Weekdays (`getDay()`) are not modelled. The weekday of the first of the month is a parameter. The Sunday flag of a cell is derived from it by arithmetic.
- The confirmation dialog (`Alert.alert`) is a boolean parameter. Its Delete callback reads the state that was current when the dialog opened. The model applies the delete to the state at the time of the call, as one atomic step.
- React state setters and re-renders are not modelled. Each handler is one atomic transition that reads the state before it.
- Whitespace for `trim` is a fixed list of eight characters, not the full Unicode class that JavaScript uses.
- The name field's `maxLength={30}` is enforced by the native text input and is not modelled: `ChangeName` accepts any text.
- Years and days are non-negative integers. A negative year, whose text would start with `-`, is not modelled.
- Tracker.DaysInMonth: `new Date(y, m + 1, 0)` reads years 0..99 as 1900..1999, so for year 0 the app gives February 28 days where the model gives 29; the year comes from `getFullYear()`, so no real session reaches those years.
- The single-activity tracker's own `renderCalendar` is not modelled separately; it has the same layout as the per-activity one.
- Month and day names, styles, colors, icons and the legend are presentation with no behaviour and are not modelled.
- The celebration modal's animations, timers and random confetti are not modelled. Its auto-close only calls `onClose`, which is `Session.CloseCelebration`.
- The sign-in screen (OAuth, network fetch, alerts) is not part of this model.
- Uniqueness of activity ids is not enforced, because the source does not enforce it. The properties that depend on it take it as a hypothesis.
- The structured-key lemmas take hyphen-free ids as a hypothesis. Built-in and clock ids satisfy it.
