/** How far a day's doses have been logged: the done/total counting behind
    the daily status line. */
module Status {
  import opened Regimen

  /** Number of `tasks` whose identifier has been logged. */
  function DoneCount(tasks: seq<Task>, logged: set<TaskId>): (n: nat)
    ensures n <= |tasks|
    ensures n == |tasks| <==> forall i | 0 <= i < |tasks| :: tasks[i].id in logged
    ensures n == 0 <==> forall i | 0 <= i < |tasks| :: tasks[i].id !in logged
  {
    if tasks == [] then 0
    else
      var rest := DoneCount(tasks[1..], logged);
      assert forall i | 1 <= i < |tasks| :: tasks[i] == tasks[1..][i - 1];
      (if tasks[0].id in logged then 1 else 0) + rest
  }

  datatype DayStatus = NothingScheduled | NoneLogged | SomeLogged(done: nat, total: nat) | AllLogged

  /** The status of a day's doses given the set of logged identifiers. */
  function Classify(tasks: seq<Task>, logged: set<TaskId>): (st: DayStatus)
    ensures st == NothingScheduled <==> tasks == []
    ensures st == NoneLogged <==>
              tasks != [] && forall i | 0 <= i < |tasks| :: tasks[i].id !in logged
    ensures st == AllLogged <==>
              tasks != [] && forall i | 0 <= i < |tasks| :: tasks[i].id in logged
    ensures st.SomeLogged? <==>
              (exists i | 0 <= i < |tasks| :: tasks[i].id in logged)
              && (exists i | 0 <= i < |tasks| :: tasks[i].id !in logged)
    ensures st.SomeLogged? ==> 0 < st.done < st.total == |tasks|
    ensures st.SomeLogged? ==> st.done == DoneCount(tasks, logged)
  {
    if |tasks| == 0 then NothingScheduled
    else
      var total := |tasks|;
      var done := DoneCount(tasks, logged);
      if done == 0 then NoneLogged
      else if done < total then SomeLogged(done, total)
      else AllLogged
  }

  /** Logging an identifier that no task carries does not change the count. */
  lemma {:induction false} StaleIdNotCounted(tasks: seq<Task>, logged: set<TaskId>, id: TaskId)
    requires forall i | 0 <= i < |tasks| :: tasks[i].id != id
    ensures DoneCount(tasks, logged + {id}) == DoneCount(tasks, logged)
  {
    if tasks != [] {
      StaleIdNotCounted(tasks[1..], logged, id);
    }
  }

  /** Logging a new identifier carried by exactly one task adds one to the count. */
  lemma {:induction false} NewIdCountsOnce(tasks: seq<Task>, logged: set<TaskId>, id: TaskId, k: int)
    requires 0 <= k < |tasks| && tasks[k].id == id && id !in logged
    requires forall i | 0 <= i < |tasks| && i != k :: tasks[i].id != id
    ensures DoneCount(tasks, logged + {id}) == DoneCount(tasks, logged) + 1
  {
    if k == 0 {
      StaleIdNotCounted(tasks[1..], logged, id);
    } else {
      NewIdCountsOnce(tasks[1..], logged, id, k - 1);
    }
  }

  /** Logging more never lowers the count. */
  lemma {:induction false} DoneCountMonotone(tasks: seq<Task>, logged: set<TaskId>, more: set<TaskId>)
    requires logged <= more
    ensures DoneCount(tasks, logged) <= DoneCount(tasks, more)
  {
    if tasks != [] {
      DoneCountMonotone(tasks[1..], logged, more);
    }
  }
}
