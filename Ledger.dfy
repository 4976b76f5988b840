/** The completion store and progress ledger.

    The persisted state is a set of keys: per day, the identifiers of the
    doses logged that day and a marker set once the day was fully logged;
    globally, the star count, the streak and the last fully logged day.  A key
    that was never written is absent, and reading an absent key gives its
    default (no logged doses, 0 stars, streak 0, no last full day).
 */
module Ledger {
  import opened Days
  import opened Regimen
  import opened Status

  datatype Option<T> = None | Some(value: T)

  /** The stored keys.  `completed` holds the logged identifiers per day,
      `fullMarkers` the days whose full marker is set. */
  datatype Progress = Progress(
    completed: map<Day, set<TaskId>>,
    fullMarkers: set<Day>,
    storedStars: Option<nat>,
    storedStreak: Option<nat>,
    storedLastFull: Option<Day>)

  /** Storage in which no key has been written yet. */
  const Initial := Progress(map[], {}, None, None, None)

  /** Identifiers logged on day `d`; nothing when the day's record is absent. */
  function Logged(s: Progress, d: Day): set<TaskId> {
    if d in s.completed then s.completed[d] else {}
  }

  function Stars(s: Progress): nat {
    match s.storedStars
    case Some(n) => n
    case None => 0
  }

  function Streak(s: Progress): nat {
    match s.storedStreak
    case Some(n) => n
    case None => 0
  }

  function LastFullDate(s: Progress): Option<Day> {
    s.storedLastFull
  }

  /** Every dose due on `d` has been logged: `done == total`. */
  predicate FullyLogged(s: Progress, d: Day) {
    DoneCount(TasksForDate(d), Logged(s, d)) == |TasksForDate(d)|
  }

  /** The streak granted when `day` becomes full: one more than the current
      streak if the last full day was the day before, otherwise 1. */
  function NewStreak(s: Progress, day: Day): (n: nat)
    ensures s.storedLastFull == Some(day - 1) ==> n == Streak(s) + 1
    ensures s.storedLastFull != Some(day - 1) ==> n == 1
  {
    match s.storedLastFull
    case Some(lastFull) => if DaysBetween(lastFull, day) == 1 then Streak(s) + 1 else 1
    case None => 1
  }

  /** The effect of logging dose `id` on `day`. */
  function Click(s: Progress, day: Day, id: TaskId): Progress {
    if id in Logged(s, day) then s
    else
      var logged := Logged(s, day) + {id};
      var logStored := s.(completed := s.completed[day := logged], storedStars := Some(Stars(s) + 1));
      var tasks := TasksForDate(day);
      if DoneCount(tasks, logged) == |tasks| && day !in s.fullMarkers then
        logStored.(fullMarkers := s.fullMarkers + {day},
                   storedStreak := Some(NewStreak(s, day)),
                   storedLastFull := Some(day))
      else
        logStored
  }

  /** Logging the identifiers `ids` on `day`, one after the other. */
  function LogAll(s: Progress, day: Day, ids: seq<TaskId>): Progress
    decreases |ids|
  {
    if ids == [] then s else LogAll(Click(s, day, ids[0]), day, ids[1..])
  }

  /** Logging every dose due on `day`, in display order. */
  function CompleteDay(s: Progress, day: Day): Progress {
    LogAll(s, day, IdsOf(TasksForDate(day)))
  }

  function IdsOf(tasks: seq<Task>): (ids: seq<TaskId>)
    ensures |ids| == |tasks| && forall i | 0 <= i < |tasks| :: ids[i] == tasks[i].id
  {
    if tasks == [] then [] else [tasks[0].id] + IdsOf(tasks[1..])
  }

  /** The ledger's invariant.
      - A day carries the full marker exactly when all of its doses are logged.
      - A streak and a last full day are stored together; the last full day
        is marked full and the streak is at least 1.
      - The `streak` days ending with the last full day are all marked full. */
  ghost predicate Inv(s: Progress) {
    && (forall d {:trigger FullyLogged(s, d)} :: d in s.fullMarkers <==> FullyLogged(s, d))
    && (s.storedLastFull.Some? <==> s.storedStreak.Some?)
    && (s.storedLastFull.Some? ==>
          var last := s.storedLastFull.value;
          && last in s.fullMarkers
          && Streak(s) >= 1
          && forall d | last - Streak(s) < d <= last :: d in s.fullMarkers)
  }

  // ---------------------------------------------------------------------
  // One click
  // ---------------------------------------------------------------------

  /** Logging a dose that is already logged changes nothing at all. */
  lemma ClickLoggedIsNoOp(s: Progress, day: Day, id: TaskId)
    requires id in Logged(s, day)
    ensures Click(s, day, id) == s
  {
  }

  /** A new log records exactly that identifier on that day and adds one star;
      the records of every other day are untouched. */
  lemma ClickNewLog(s: Progress, day: Day, id: TaskId)
    requires id !in Logged(s, day)
    ensures Logged(Click(s, day, id), day) == Logged(s, day) + {id}
    ensures Stars(Click(s, day, id)) == Stars(s) + 1
    ensures forall d | d != day :: Logged(Click(s, day, id), d) == Logged(s, d)
    ensures s.fullMarkers <= Click(s, day, id).fullMarkers
  {
  }

  /** Clicking twice is clicking once. */
  lemma ClickIdempotent(s: Progress, day: Day, id: TaskId)
    ensures Click(Click(s, day, id), day, id) == Click(s, day, id)
  {
    if id !in Logged(s, day) {
      ClickNewLog(s, day, id);
    }
  }

  /** When a new log completes a day not yet marked, the day is marked once,
      it becomes the last full day and the streak grows by one after a full
      previous day and restarts at 1 otherwise. */
  lemma ClickCompletesDay(s: Progress, day: Day, id: TaskId)
    requires id !in Logged(s, day) && day !in s.fullMarkers
    requires FullyLogged(Click(s, day, id), day)
    ensures Click(s, day, id).fullMarkers == s.fullMarkers + {day}
    ensures LastFullDate(Click(s, day, id)) == Some(day)
    ensures Streak(Click(s, day, id)) ==
              if LastFullDate(s) == Some(day - 1) then Streak(s) + 1 else 1
  {
  }

  /** A day that is already marked full never touches the streak again. */
  lemma FullDayKeepsStreak(s: Progress, day: Day, id: TaskId)
    requires day in s.fullMarkers
    ensures Click(s, day, id).fullMarkers == s.fullMarkers
    ensures Streak(Click(s, day, id)) == Streak(s)
    ensures LastFullDate(Click(s, day, id)) == LastFullDate(s)
  {
  }

  /** A log that leaves the day incomplete does not touch the streak. */
  lemma IncompleteDayKeepsStreak(s: Progress, day: Day, id: TaskId)
    requires !FullyLogged(Click(s, day, id), day)
    ensures Click(s, day, id).fullMarkers == s.fullMarkers
    ensures Streak(Click(s, day, id)) == Streak(s)
    ensures LastFullDate(Click(s, day, id)) == LastFullDate(s)
  {
    if id !in Logged(s, day) {
      ClickNewLog(s, day, id);
    }
  }

  // ---------------------------------------------------------------------
  // The invariant
  // ---------------------------------------------------------------------

  /** Empty storage satisfies the invariant: no day is fully logged, since
      every day has at least its Prosentials dose. */
  lemma InitialInv()
    ensures Inv(Initial)
  {
    forall d ensures !FullyLogged(Initial, d) {
      ProsentialsFirst(d);
    }
  }

  /** Reading empty storage gives the defaults. */
  lemma InitialDefaults()
    ensures Stars(Initial) == 0 && Streak(Initial) == 0 && LastFullDate(Initial) == None
    ensures forall d :: Logged(Initial, d) == {} && d !in Initial.fullMarkers
  {
  }

  lemma ClickPreservesInv(s: Progress, day: Day, id: TaskId)
    requires Inv(s)
    ensures Inv(Click(s, day, id))
  {
    if id !in Logged(s, day) {
      var s' := Click(s, day, id);
      ClickNewLog(s, day, id);
      forall d ensures d in s'.fullMarkers <==> FullyLogged(s', d) {
        assert d in s.fullMarkers <==> FullyLogged(s, d);
        if d == day && !FullyLogged(s', d) {
          DoneCountMonotone(TasksForDate(d), Logged(s, d), Logged(s', d));
        }
      }
      if day !in s.fullMarkers && FullyLogged(s', day) {
        ClickCompletesDay(s, day, id);
      }
    }
  }

  /** Under the invariant, a day shows as all logged exactly when it carries
      the full marker. */
  lemma StatusAllLoggedIffFull(s: Progress, d: Day)
    requires Inv(s)
    ensures Classify(TasksForDate(d), Logged(s, d)) == AllLogged <==> d in s.fullMarkers
  {
    ProsentialsFirst(d);
    assert d in s.fullMarkers <==> FullyLogged(s, d);
  }

  // ---------------------------------------------------------------------
  // A whole day
  // ---------------------------------------------------------------------

  /** Logging a sequence of doses on `day` keeps the invariant, adds exactly
      those identifiers to that day, leaves other days alone, and sets the
      streak at most once: the first time the day becomes full. */
  lemma {:induction false} LogAllEffect(s: Progress, day: Day, ids: seq<TaskId>)
    requires Inv(s)
    ensures Inv(LogAll(s, day, ids))
    ensures Logged(LogAll(s, day, ids), day) == Logged(s, day) + set x | x in ids
    ensures forall d | d != day :: Logged(LogAll(s, day, ids), d) == Logged(s, d)
    ensures Stars(LogAll(s, day, ids)) >= Stars(s)
    ensures day in s.fullMarkers || day !in LogAll(s, day, ids).fullMarkers ==>
              Streak(LogAll(s, day, ids)) == Streak(s) && LastFullDate(LogAll(s, day, ids)) == LastFullDate(s)
    ensures day !in s.fullMarkers && day in LogAll(s, day, ids).fullMarkers ==>
              Streak(LogAll(s, day, ids)) == NewStreak(s, day) && LastFullDate(LogAll(s, day, ids)) == Some(day)
    decreases |ids|
  {
    if ids != [] {
      var s1 := Click(s, day, ids[0]);
      ClickPreservesInv(s, day, ids[0]);
      LogAllEffect(s1, day, ids[1..]);
      assert ids == [ids[0]] + ids[1..];
      assert (set x | x in ids) == {ids[0]} + set x | x in ids[1..];
      if ids[0] !in Logged(s, day) {
        ClickNewLog(s, day, ids[0]);
      }
      if day in s.fullMarkers {
        FullDayKeepsStreak(s, day, ids[0]);
      } else if day in s1.fullMarkers {
        ClickCompletesDay(s, day, ids[0]);
      } else {
        IncompleteDayKeepsStreak(s, day, ids[0]);
      }
    }
  }

  /** Logging every dose of a day that is not yet full marks it full, makes it
      the last full day, and extends the streak exactly when the previous
      full day was the day before. */
  lemma CompletingADay(s: Progress, day: Day)
    requires Inv(s) && day !in s.fullMarkers
    ensures Inv(CompleteDay(s, day))
    ensures day in CompleteDay(s, day).fullMarkers
    ensures LastFullDate(CompleteDay(s, day)) == Some(day)
    ensures Streak(CompleteDay(s, day)) ==
              if LastFullDate(s) == Some(day - 1) then Streak(s) + 1 else 1
    ensures forall d | d != day :: Logged(CompleteDay(s, day), d) == Logged(s, d)
  {
    var tasks := TasksForDate(day);
    var ids := IdsOf(tasks);
    var s' := LogAll(s, day, ids);
    LogAllEffect(s, day, ids);
    forall i | 0 <= i < |tasks| ensures tasks[i].id in Logged(s', day) {
      assert ids[i] == tasks[i].id && ids[i] in ids;
    }
    assert FullyLogged(s', day);
  }

  /** Completing the day after the last full day extends the streak. */
  lemma NextDayExtendsStreak(s: Progress, day: Day, s': Progress)
    requires Inv(s) && LastFullDate(s) == Some(day - 1) && Logged(s, day) == {}
    requires s' == CompleteDay(s, day)
    ensures Inv(s') && Streak(s') == Streak(s) + 1 && LastFullDate(s') == Some(day)
    ensures forall d | d != day :: Logged(s', d) == Logged(s, d)
  {
    NotFullWhenUntouched(s, day);
    CompletingADay(s, day);
  }

  /** Completing a day after a gap, or with no earlier full day, restarts the
      streak at 1. */
  lemma GapRestartsStreak(s: Progress, day: Day, s': Progress)
    requires Inv(s) && LastFullDate(s) != Some(day - 1) && Logged(s, day) == {}
    requires s' == CompleteDay(s, day)
    ensures Inv(s') && Streak(s') == 1 && LastFullDate(s') == Some(day)
    ensures forall d | d != day :: Logged(s', d) == Logged(s, d)
  {
    NotFullWhenUntouched(s, day);
    CompletingADay(s, day);
  }

  /** The streak is not the length of the run of full days ending at the last
      full day.  Completing `d`, then `d + 2`, then `d + 1` leaves all three
      days marked full, but the last completion finds the last full day one
      day later rather than one day earlier, so the streak restarts at 1. */
  lemma OutOfOrderCompletion(d: Day, s1: Progress, s2: Progress, s3: Progress)
    requires s1 == CompleteDay(Initial, d)
    requires s2 == CompleteDay(s1, d + 2)
    requires s3 == CompleteDay(s2, d + 1)
    ensures {d, d + 1, d + 2} <= s3.fullMarkers
    ensures LastFullDate(s3) == Some(d + 1)
    ensures Streak(s3) == 1
  {
    InitialInv();
    InitialDefaults();
    CompleteUntouchedDay(Initial, d);
    CompleteUntouchedDay(s1, d + 2);
    CompleteUntouchedDay(s2, d + 1);
  }

  /** Completing a day on which nothing was logged marks it, makes it the last
      full day, and leaves the records and markers of every other day alone. */
  lemma CompleteUntouchedDay(s: Progress, day: Day)
    requires Inv(s) && Logged(s, day) == {}
    ensures Inv(CompleteDay(s, day))
    ensures day in CompleteDay(s, day).fullMarkers
    ensures LastFullDate(CompleteDay(s, day)) == Some(day)
    ensures Streak(CompleteDay(s, day)) ==
              if LastFullDate(s) == Some(day - 1) then Streak(s) + 1 else 1
    ensures forall d | d != day ::
              Logged(CompleteDay(s, day), d) == Logged(s, d)
              && (d in CompleteDay(s, day).fullMarkers <==> d in s.fullMarkers)
  {
    var s' := CompleteDay(s, day);
    NotFullWhenUntouched(s, day);
    CompletingADay(s, day);
    forall d | d != day ensures d in s'.fullMarkers <==> d in s.fullMarkers {
      assert d in s.fullMarkers <==> FullyLogged(s, d);
      assert d in s'.fullMarkers <==> FullyLogged(s', d);
    }
  }

  /** The streak never exceeds the number of days marked full. */
  lemma StreakAtMostFullDays(s: Progress)
    requires Inv(s)
    ensures Streak(s) <= |s.fullMarkers|
  {
    if s.storedLastFull.Some? {
      var last := s.storedLastFull.value;
      var run := Run(last - Streak(s), last);
      assert run <= s.fullMarkers;
      assert s.fullMarkers == run + (s.fullMarkers - run);
    }
  }

  /** The days after `lo` up to and including `hi`. */
  function Run(lo: int, hi: int): (r: set<Day>)
    ensures forall d :: d in r <==> lo < d <= hi
    ensures |r| == if hi > lo then hi - lo else 0
    decreases hi - lo
  {
    if hi <= lo then {} else Run(lo, hi - 1) + {hi}
  }

  /** A day with nothing logged is not full. */
  lemma NotFullWhenUntouched(s: Progress, d: Day)
    requires Inv(s) && Logged(s, d) == {}
    ensures d !in s.fullMarkers
  {
    ProsentialsFirst(d);
    assert d in s.fullMarkers <==> FullyLogged(s, d);
  }

  // ---------------------------------------------------------------------
  // The tracker: the stored keys as fields, updated in place
  // ---------------------------------------------------------------------

  class Tracker {
    var completed: map<Day, set<TaskId>>
    var fullMarkers: set<Day>
    var storedStars: Option<nat>
    var storedStreak: Option<nat>
    var storedLastFull: Option<Day>

    function State(): Progress
      reads this
    {
      Progress(completed, fullMarkers, storedStars, storedStreak, storedLastFull)
    }

    ghost predicate Valid()
      reads this
    {
      Inv(State())
    }

    /** A tracker over storage in which nothing has been written. */
    constructor ()
      ensures Valid() && State() == Initial
    {
      completed, fullMarkers := map[], {};
      storedStars, storedStreak, storedLastFull := None, None, None;
      InitialInv();
    }

    /** Log dose `task` as taken on `dateKey`. */
    method HandleTaskClick(task: Task, dateKey: Day)
      requires Valid()
      modifies this
      ensures Valid()
      ensures State() == Click(old(State()), dateKey, task.id)
    {
      ghost var before := State();
      ClickPreservesInv(before, dateKey, task.id);
      var completedMap := if dateKey in completed then completed[dateKey] else {};
      if task.id in completedMap {
        ClickLoggedIsNoOp(before, dateKey, task.id);
        return;  // already logged
      }

      completedMap := completedMap + {task.id};
      completed := completed[dateKey := completedMap];

      var newStars := Stars(State()) + 1;
      storedStars := Some(newStars);

      var todayTasks := TasksForDate(dateKey);
      var total := |todayTasks|;
      var done := DoneCount(todayTasks, completedMap);

      if done == total {
        var alreadyFull := dateKey in fullMarkers;
        if !alreadyFull {
          fullMarkers := fullMarkers + {dateKey};

          var newStreak := 1;
          if storedLastFull.Some? {
            var diff := DaysBetween(storedLastFull.value, dateKey);
            if diff == 1 {
              newStreak := Streak(State()) + 1;
            }
          }
          assert newStreak == NewStreak(before, dateKey);

          storedStreak := Some(newStreak);
          storedLastFull := Some(dateKey);
        }
      }
    }

    /** Wipe every stored key. */
    method ResetProgress()
      modifies this
      ensures Valid() && State() == Initial
    {
      completed, fullMarkers := map[], {};
      storedStars, storedStreak, storedLastFull := None, None, None;
      InitialInv();
    }
  }
}
