# Medication regimen scheduler and adherence ledger

This project models the core of a small medication-adherence tracker. It has
two halves.

- **The schedule.** A fixed regimen decides which doses are due on a calendar
  day. Prosentials is due every morning. Vitamin D is due on Sunday and
  Wednesday mornings. Isoprinosine is due morning and evening on Tuesdays and
  Saturdays of course weeks 1 to 3. Valvir is due morning and evening in
  course week 4. The course starts on 2025-11-22, a Saturday.
- **The ledger.** Logging a dose records its identifier for the day and earns
  one star. Logging the last missing dose of a day marks the day full, once.
  That mark makes the day the last full day. It grows the streak by one when
  the previous full day was the day before, and otherwise restarts the streak
  at 1. A reset wipes every stored key.

Modules:

- `Days`: days are day numbers counted from 1970-01-01. It also holds the
  weekday, the whole-day difference and the regimen start constant.
- `Regimen`: `TasksForDate` builds a day's doses as the source does, rule by
  rule in a fixed order. `Reference` states the same regimen independently,
  with elapsed-day ranges instead of week numbers. Lemmas relate the two.
- `Status`: counts a day's logged doses (`done` of `total`) and classifies the
  day as nothing logged, partly logged or all logged.
- `Ledger`: the stored state is `Progress`, a value of the stored keys, and
  `Click` is the effect of one log. `Inv` is the ledger's invariant. The class
  `Tracker` keeps the keys as fields that `HandleTaskClick` and `ResetProgress`
  update in place. Both methods are proved against `Click` and the initial
  state.

A dose record keeps the source's fields. The display text `label` is called
`caption`, because `label` is a reserved word in Dafny.

A stored key that was never written is absent, and reading it gives the
default: no logged doses, 0 stars, streak 0, no last full day.

The Valvir guard is `weekNumber == 4 && 21 <= diffDays <= 30`
(script.js:92). Week 4 already means elapsed days 21 to 27, so the `<= 30`
bound never takes effect. The code therefore makes Valvir due on 7 days. The
dose's `details` text (script.js:98, 105) and the comment above the guard
(script.js:91) both say 10 days. The model follows the code and proves the
7-day course (`ValvirGuardEquivalence`, `ValvirCourseIsSevenDays`).

The code marks a day full as soon as its done count equals its total
(script.js:347), without checking that the day has at least one dose.
`ProsentialsFirst` shows that every day has one, so a day with no doses never
occurs.

The streak is not always the length of the run of full days ending at the
last full day. The code extends the streak only when the last full day is
exactly the day before the day being completed (script.js:352-359). A page
loaded on day D+1 can stay open while D+2 is completed elsewhere. When D+1 is
then completed on that page, the difference to the last full day is -1, so the
streak restarts at 1, although D, D+1 and D+2 are all full. `OutOfOrderCompletion`
proves this from empty storage. The invariant `Inv` therefore states only that
the streak's days, ending at the last full day, are all full.

## Model

| member | source | states |
|---|---|---|
| `Days.DaysFromCivil` | script.js:64-65 | the day number of a date; specified by `NextDateIsNextDay`, `EpochIsThursday` and `RegimenStartIsSaturday` |
| `Days.NextDateIsNextDay` | script.js:23-30 | the date after any valid date, across month ends, year ends and 29 February, has the next day number, so the whole-day difference between them is 1 |
| `Days.MarchYearLength` | script.js:23-30 | a year counted from March 1 is 366 days long when the February that ends it has 29 days, and 365 days otherwise |
| `Days.EndOfFebruary` | script.js:23-30 | March 1 is the day after the last day of February, in leap and common years |
| `Days.EndOfMonth` | script.js:23-30 | the first of the next month, or New Year's Day after 31 December, is the day after the last day of every other month |
| `Days.DaysBetween` | script.js:23-30 | the whole-day difference: adding it to the first day gives the second; zero exactly for the same day, positive exactly when the second day is later; with `NextDateIsNextDay` it counts calendar days |
| `Days.RegimenStartIsSaturday` | script.js:5 | the start date 2025-11-22 is day 20414 and falls on weekday 6 (Saturday) |
| `Days.EpochIsThursday` | script.js:41 | day 0 is 1970-01-01 and is weekday 4 (Thursday), the offset the weekday numbering uses |
| `Days.Weekday` | script.js:41 | the weekday is in 0..6 and is the day number shifted by four (1970-01-01 is a Thursday), modulo seven |
| `Days.WeekdaySuccessor` | script.js:41 | the weekday advances by one, modulo seven, from each day to the next |
| `Days.WeekdayPeriodic` | script.js:41 | the weekday repeats every seven days |
| `Regimen.WeekNumber` | script.js:68 | week `w` of the course covers elapsed days `7(w-1)` to `7w-1` |
| `Regimen.WeekNumberPhases` | script.js:67-71 | weeks 1 to 3 are exactly elapsed days 0 to 20; week 4 is exactly elapsed days 21 to 27 |
| `Regimen.ValvirGuardEquivalence` | script.js:92 | the Valvir guard `weekNumber == 4 && 21 <= diffDays <= 30` holds exactly for elapsed days 21 to 27 |
| `Regimen.ValvirCourseIsSevenDays` | script.js:91-107 | the elapsed days on which the Valvir guard holds are exactly 21 to 27, seven days rather than ten |
| `Regimen.TasksForDate` | script.js:38-111 | a day's doses, in display order; specified entry by entry by `TasksMatchReference` |
| `Regimen.CourseTasks` | script.js:63-108 | the course doses on or after the start day; specified by `WeekNumberPhases`, `ValvirGuardEquivalence`, `IsoprinosineSchedule` and `ValvirSchedule` |
| `Regimen.TasksMatchReference` | script.js:38-111 | the day's dose list agrees, entry by entry and in order, with the range-based reference: identifier, medication, time of day and label |
| `Regimen.ProsentialsFirst` | script.js:43-50 | every day's list is non-empty and starts with the Prosentials morning dose with identifier `<day>_prosentials_morning` |
| `Regimen.VitaminDSchedule` | script.js:52-61 | a Vitamin D dose is present exactly on weekdays 0 and 3; when present it is the second entry, a morning dose `<day>_vitd_morning` |
| `Regimen.NoCourseBeforeStart` | script.js:63-67 | before the start day there is no Isoprinosine or Valvir dose, only Prosentials and possibly Vitamin D |
| `Regimen.IsoprinosineSchedule` | script.js:67-89 | Isoprinosine is present exactly when elapsed days are 0 to 20 and the weekday is 2 or 6; then exactly two entries come right after the daily doses, morning then evening |
| `Regimen.ValvirSchedule` | script.js:91-107 | Valvir is present exactly on elapsed days 21 to 27, whatever the weekday; then morning then evening right after the daily doses |
| `Regimen.TaskIdsDistinct` | script.js:44-106 | within one day every identifier carries that day and all identifiers are pairwise distinct |
| `Regimen.ReferenceSlugsDistinct` | script.js:44-106 | the medication/time slugs of one day are pairwise distinct |
| `Regimen.AtMostFourDoses` | script.js:38-111 | a day has at most four doses; Isoprinosine and Valvir never fall on the same day |
| `Regimen.StartDayScenario` | script.js:38-111 | the start day (a Saturday of week 1) has Prosentials, then Isoprinosine morning and evening |
| `Regimen.FirstWednesdayScenario` | script.js:38-111 | four days after the start (a Wednesday) there are only Prosentials and Vitamin D |
| `Status.DoneCount` | script.js:224-225 | the number of logged doses is at most the total; it equals the total exactly when every dose is logged, and is zero exactly when none is |
| `Status.Classify` | script.js:215-237 | the day shows nothing scheduled exactly for an empty list; none logged, all logged or partly logged exactly by which doses are logged; a partial count is strictly between 0 and the total |
| `Status.StaleIdNotCounted` | script.js:345 | logging an identifier that no dose of the day carries leaves the done count unchanged |
| `Status.NewIdCountsOnce` | script.js:345 | logging a new identifier that exactly one dose carries raises the done count by one |
| `Status.DoneCountMonotone` | script.js:345 | logging more identifiers never lowers the done count |
| `Ledger.Logged` | script.js:115-123 | the identifiers logged on a day, none when the day's record is absent, as the `{}` fallback at script.js:249; specified by `ClickNewLog` and `InitialDefaults` |
| `Ledger.Stars` | script.js:129-132 | the star count, 0 when the key is absent; specified by `ClickNewLog` and `InitialDefaults` |
| `Ledger.Streak` | script.js:138-141 | the streak, 0 when the key is absent; specified by `ClickCompletesDay` and `InitialDefaults` |
| `Ledger.LastFullDate` | script.js:147-149 | the last full day, none when the key is absent; specified by `ClickCompletesDay` and `InitialDefaults` |
| `Ledger.Click` | script.js:321-362 | the effect of one log on the stored keys; specified by `ClickLoggedIsNoOp`, `ClickNewLog`, `ClickCompletesDay` and `ClickPreservesInv` |
| `Ledger.NewStreak` | script.js:352-359 | the streak granted on a new full day is the old streak plus 1 when the last full day is the day before, and 1 otherwise, including when there is no last full day |
| `Ledger.ClickLoggedIsNoOp` | script.js:321-324 | logging an already logged identifier leaves the whole state unchanged: records, stars, streak, last full day and full markers |
| `Ledger.ClickNewLog` | script.js:326-331 | a new log adds exactly that identifier to that day, adds exactly one star, leaves every other day's record alone and removes no full marker |
| `Ledger.ClickIdempotent` | script.js:321-331 | logging the same dose twice has the same effect as logging it once |
| `Ledger.ClickCompletesDay` | script.js:343-362 | a new log that completes a day not yet marked marks it, adds only that marker, makes it the last full day, and sets the streak to the old streak plus 1 if the last full day was the day before, else to 1 |
| `Ledger.FullDayKeepsStreak` | script.js:347-350 | on a day already marked full, a log leaves the markers, the streak and the last full day unchanged |
| `Ledger.IncompleteDayKeepsStreak` | script.js:347 | a log that leaves its day incomplete leaves the markers, the streak and the last full day unchanged |
| `Ledger.InitialInv` | script.js:129-153 | empty storage satisfies the ledger invariant (no day is full, since every day has a dose) |
| `Ledger.InitialDefaults` | script.js:129-153 | reading empty storage gives 0 stars, streak 0, no last full day, no logged doses and no full markers |
| `Ledger.ClickPreservesInv` | script.js:321-362 | every log preserves the invariant: a day is marked full exactly when all its doses are logged; streak and last full day are stored together; the streak's days up to the last full day are all marked full |
| `Ledger.StatusAllLoggedIffFull` | script.js:343-373 | under the invariant a day shows as all logged exactly when it carries the full marker |
| `Ledger.LogAllEffect` | script.js:321-362 | logging a sequence of doses on a day keeps the invariant, adds exactly those identifiers to that day, leaves other days alone, never lowers the stars, and changes the streak only when the day first becomes full, and then to the new streak |
| `Ledger.CompletingADay` | script.js:343-362 | logging every dose of a day not yet full marks it full and makes it the last full day; the streak grows by one after a full previous day and restarts at 1 otherwise |
| `Ledger.NextDayExtendsStreak` | script.js:352-358 | completing the day right after the last full day adds one to the streak |
| `Ledger.GapRestartsStreak` | script.js:352-361 | completing a day after a gap, or with no earlier full day, sets the streak to 1 |
| `Ledger.CompleteUntouchedDay` | script.js:343-362 | completing a day with nothing logged marks it, makes it the last full day, applies the day-before rule, and leaves every other day's records and markers alone |
| `Ledger.OutOfOrderCompletion` | script.js:352-359 | from empty storage, completing D, then D+2, then D+1 leaves all three days full, D+1 the last full day, and the streak 1 |
| `Ledger.StreakAtMostFullDays` | script.js:352-362 | the streak never exceeds the number of days marked full |
| `Ledger.NotFullWhenUntouched` | script.js:343-347 | a day with nothing logged is not marked full |
| `Ledger.Tracker.constructor` | script.js:129-153 | a fresh tracker holds empty storage and satisfies the invariant |
| `Ledger.Tracker.HandleTaskClick` | script.js:321-374 | updating the stored keys in place has exactly the effect of `Click` and keeps the invariant |
| `Ledger.Tracker.ResetProgress` | script.js:378-387 | after a reset every key is absent again: the state is the initial one and the invariant holds |

## Left out

- Rendering and animation (`renderTasksForToday`, `showStarBurst`, `glowPipi`, `updateStatsUI`, `refreshPetNameUI`, the status and world messages): presentation only. `Classify` keeps only which status message is chosen.
- Pet name and music settings: storage wrappers and audio playback, with no scheduling or ledger logic.
- The browser key-value storage, JSON encoding and `parseInt`: the keys are modelled as fields and map entries, absent or present. A stored value that does not parse is not modelled; in particular an unparseable star or streak count, which `parseInt` turns into `NaN`, is not modelled. Failing writes (quota exceeded) are not modelled either; the source does not handle them, and a thrown write would stop `handleTaskClick` partway.
- The `YYYY-MM-DD` text of a day key: a day is its day number, and a dose identifier is the pair of day and slug. For years 0 to 9999 the key is exactly ten characters, so the pair determines the text and the text determines the pair. Outside those years `toISOString` writes a signed six-digit year (`+010000-…`) and `slice(0, 10)` cuts off the day, so two days of one month share a key; the model does not capture this.
- Time zones and daylight saving: `toISOString` takes the UTC date while `getDay` takes the local weekday, `new Date(dateKey)` parses the key as UTC midnight, and `daysBetween` rounds a millisecond difference. The model takes one calendar day per day number, with a fixed weekday.
- The in-memory completion map that one rendering shares between its buttons: the model reads and writes the stored record directly. The two agree because every log saves the map before it goes on. Several open pages writing the same storage are not modelled.
- `resetProgress`'s confirmation dialog and page reload: the model is the confirmed branch, which clears all storage.
- Inv: does not state that the streak equals the number of consecutive full days ending at the last full day, because the code does not keep that when days are completed out of order (`OutOfOrderCompletion`); it states only that those `streak` days are all full.
- Page start-up wiring (`DOMContentLoaded`): event binding only.
