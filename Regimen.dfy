/** The regimen: which doses are due on a given day.

    Four rules are evaluated independently and their outputs are concatenated
    in a fixed order: Prosentials every morning; Vitamin D on Sunday and
    Wednesday mornings; Isoprinosine morning and evening on Tuesdays and
    Saturdays of weeks 1 to 3 of the course; Valvir morning and evening in
    week 4 of the course.  Weeks are counted from the regimen start day.
 */
module Regimen {
  import opened Days

  datatype TimeOfDay = Morning | Evening

  /** A dose identifier: the day key followed by a medication/time slug.  For
      years 0 to 9999 the day key is exactly `YYYY-MM-DD`, ten characters, so
      two identifiers are equal exactly when both the day and the slug are. */
  datatype TaskId = TaskId(day: Day, slug: string)

  datatype Task = Task(id: TaskId, caption: string, med: string, timeOfDay: TimeOfDay, details: string)

  /** Week of the course, 1 for elapsed days 0..6, 2 for 7..13, and so on. */
  function WeekNumber(elapsed: int): (w: int)
    requires elapsed >= 0
    ensures 7 * (w - 1) <= elapsed < 7 * w
  {
    elapsed / 7 + 1
  }

  function Dose(d: Day, slug: string, med: string, time: TimeOfDay, details: string): Task {
    Task(TaskId(d, slug), med + " – 1 tablet", med, time, details)
  }

  function MorningAndEvening(d: Day, medSlug: string, med: string, details: string): seq<Task> {
    [Dose(d, medSlug + "_morning", med, Morning, details),
     Dose(d, medSlug + "_evening", med, Evening, details)]
  }

  /** The course-based doses for a day on or after the start, `diffDays`
      whole days after it. */
  function CourseTasks(d: Day, diffDays: int, weekday: int): seq<Task>
    requires diffDays >= 0
  {
    var weekNumber := WeekNumber(diffDays);
    var isoprinosine :=
      if 1 <= weekNumber <= 3 && (weekday == 2 || weekday == 6)
      then MorningAndEvening(d, "isoprinosine", "Isoprinosine", "Weeks 1–3: Tue & Sat")
      else [];
    var valvir :=
      if weekNumber == 4 && diffDays >= 21 && diffDays <= 30
      then MorningAndEvening(d, "valvir", "Valvir", "Week 4: 10 days")
      else [];
    isoprinosine + valvir
  }

  /** All doses due on day `d`, in display order. */
  function TasksForDate(d: Day): seq<Task> {
    var weekday := Weekday(d);
    var prosentials := [Dose(d, "prosentials_morning", "Prosentials", Morning, "Daily")];
    var vitaminD :=
      if weekday == 0 || weekday == 3
      then [Dose(d, "vitd_morning", "Vitamin D", Morning, "Twice a week (Sun & Wed)")]
      else [];
    var diffDays := DaysBetween(RegimenStart, d);
    var course := if diffDays >= 0 then CourseTasks(d, diffDays, weekday) else [];
    prosentials + vitaminD + course
  }

  // ---------------------------------------------------------------------
  // An independent statement of the regimen in terms of elapsed-day ranges
  // ---------------------------------------------------------------------

  predicate VitaminDDay(d: Day) {
    Weekday(d) == 0 || Weekday(d) == 3
  }

  predicate IsoprinosineDay(d: Day) {
    0 <= DaysBetween(RegimenStart, d) <= 20 && (Weekday(d) == 2 || Weekday(d) == 6)
  }

  predicate ValvirDay(d: Day) {
    21 <= DaysBetween(RegimenStart, d) <= 27
  }

  datatype Entry = Entry(slug: string, med: string, time: TimeOfDay)

  function Pair(medSlug: string, med: string): seq<Entry> {
    [Entry(medSlug + "_morning", med, Morning), Entry(medSlug + "_evening", med, Evening)]
  }

  /** What is due on `d`, as (slug, medication, time) entries. */
  function Reference(d: Day): seq<Entry> {
    [Entry("prosentials_morning", "Prosentials", Morning)]
    + (if VitaminDDay(d) then [Entry("vitd_morning", "Vitamin D", Morning)] else [])
    + (if IsoprinosineDay(d) then Pair("isoprinosine", "Isoprinosine") else [])
    + (if ValvirDay(d) then Pair("valvir", "Valvir") else [])
  }

  /** A task agrees with an entry of the reference on day `d`. */
  predicate Matches(t: Task, d: Day, e: Entry) {
    t.id == TaskId(d, e.slug) && t.med == e.med && t.timeOfDay == e.time
    && t.caption == e.med + " – 1 tablet"
  }

  // ---------------------------------------------------------------------
  // Properties
  // ---------------------------------------------------------------------

  /** Weeks 1 to 3 are elapsed days 0 to 20, week 4 is elapsed days 21 to 27. */
  lemma WeekNumberPhases(elapsed: int)
    requires elapsed >= 0
    ensures 1 <= WeekNumber(elapsed) <= 3 <==> elapsed <= 20
    ensures WeekNumber(elapsed) == 4 <==> 21 <= elapsed <= 27
  {
  }

  /** The Valvir guard `weekNumber == 4 && 21 <= diffDays <= 30` holds exactly
      for elapsed days 21 to 27: its `<= 30` bound never takes effect. */
  lemma ValvirGuardEquivalence(elapsed: int)
    requires elapsed >= 0
    ensures (WeekNumber(elapsed) == 4 && 21 <= elapsed <= 30) <==> 21 <= elapsed <= 27
  {
    WeekNumberPhases(elapsed);
  }

  /** So Valvir is due on exactly seven elapsed days, not ten. */
  lemma ValvirCourseIsSevenDays()
    ensures (set e | 21 <= e <= 30 && WeekNumber(e) == 4) == {21, 22, 23, 24, 25, 26, 27}
    ensures |set e | 21 <= e <= 30 && WeekNumber(e) == 4| == 7
  {
    var s := set e | 21 <= e <= 30 && WeekNumber(e) == 4;
    forall e | 21 <= e <= 30
      ensures e in s <==> e in {21, 22, 23, 24, 25, 26, 27}
    {
      WeekNumberPhases(e);
    }
    assert s == {21, 22, 23, 24, 25, 26, 27};
  }

  /** The schedule agrees, task by task and in order, with the reference. */
  lemma TasksMatchReference(d: Day)
    ensures |TasksForDate(d)| == |Reference(d)|
    ensures forall i | 0 <= i < |TasksForDate(d)| :: Matches(TasksForDate(d)[i], d, Reference(d)[i])
  {
    var e := DaysBetween(RegimenStart, d);
    if e >= 0 {
      WeekNumberPhases(e);
    }
  }

  /** Every day starts with the Prosentials morning dose. */
  lemma ProsentialsFirst(d: Day)
    ensures |TasksForDate(d)| >= 1
    ensures TasksForDate(d)[0] ==
      Task(TaskId(d, "prosentials_morning"), "Prosentials – 1 tablet", "Prosentials", Morning, "Daily")
  {
  }

  /** Vitamin D is due exactly on Sundays and Wednesdays, right after Prosentials. */
  lemma VitaminDSchedule(d: Day)
    ensures (exists i | 0 <= i < |TasksForDate(d)| :: TasksForDate(d)[i].med == "Vitamin D")
            <==> Weekday(d) == 0 || Weekday(d) == 3
    ensures Weekday(d) == 0 || Weekday(d) == 3 ==>
            |TasksForDate(d)| >= 2 && TasksForDate(d)[1].id == TaskId(d, "vitd_morning")
            && TasksForDate(d)[1].timeOfDay == Morning
  {
    TasksMatchReference(d);
    var ts, r := TasksForDate(d), Reference(d);
    if VitaminDDay(d) {
      assert ts[1].med == "Vitamin D";
    } else {
      forall i | 0 <= i < |ts| ensures ts[i].med != "Vitamin D" {
        assert Matches(ts[i], d, r[i]);
      }
    }
  }

  /** Before the start day no course medication is due. */
  lemma NoCourseBeforeStart(d: Day)
    requires DaysBetween(RegimenStart, d) < 0
    ensures forall i | 0 <= i < |TasksForDate(d)| ::
              TasksForDate(d)[i].med != "Isoprinosine" && TasksForDate(d)[i].med != "Valvir"
    ensures |TasksForDate(d)| == if VitaminDDay(d) then 2 else 1
  {
    TasksMatchReference(d);
    var ts, r := TasksForDate(d), Reference(d);
    forall i | 0 <= i < |ts| ensures ts[i].med != "Isoprinosine" && ts[i].med != "Valvir" {
      assert Matches(ts[i], d, r[i]);
    }
  }

  /** Isoprinosine is due exactly on Tuesdays and Saturdays of elapsed days 0
      to 20, as a morning dose followed by an evening dose. */
  lemma IsoprinosineSchedule(d: Day)
    ensures (exists i | 0 <= i < |TasksForDate(d)| :: TasksForDate(d)[i].med == "Isoprinosine")
            <==> 0 <= DaysBetween(RegimenStart, d) <= 20 && (Weekday(d) == 2 || Weekday(d) == 6)
    ensures IsoprinosineDay(d) ==>
              var k := if VitaminDDay(d) then 2 else 1;
              |TasksForDate(d)| == k + 2
              && TasksForDate(d)[k].id == TaskId(d, "isoprinosine_morning")
              && TasksForDate(d)[k].timeOfDay == Morning
              && TasksForDate(d)[k + 1].id == TaskId(d, "isoprinosine_evening")
              && TasksForDate(d)[k + 1].timeOfDay == Evening
              && forall i | 0 <= i < |TasksForDate(d)| && i != k && i != k + 1 ::
                   TasksForDate(d)[i].med != "Isoprinosine"
  {
    TasksMatchReference(d);
    var ts, r := TasksForDate(d), Reference(d);
    forall i | 0 <= i < |ts| ensures ts[i].med == "Isoprinosine" <==> r[i].med == "Isoprinosine" {
      assert Matches(ts[i], d, r[i]);
    }
    if IsoprinosineDay(d) {
      var k := if VitaminDDay(d) then 2 else 1;
      assert r[k].med == "Isoprinosine";
    }
  }

  /** Valvir is due exactly on elapsed days 21 to 27, whatever the weekday, as a
      morning dose followed by an evening dose; elapsed days 28 to 30 have none. */
  lemma ValvirSchedule(d: Day)
    ensures (exists i | 0 <= i < |TasksForDate(d)| :: TasksForDate(d)[i].med == "Valvir")
            <==> 21 <= DaysBetween(RegimenStart, d) <= 27
    ensures ValvirDay(d) ==>
              var k := if VitaminDDay(d) then 2 else 1;
              |TasksForDate(d)| == k + 2
              && TasksForDate(d)[k].id == TaskId(d, "valvir_morning")
              && TasksForDate(d)[k].timeOfDay == Morning
              && TasksForDate(d)[k + 1].id == TaskId(d, "valvir_evening")
              && TasksForDate(d)[k + 1].timeOfDay == Evening
  {
    TasksMatchReference(d);
    var ts, r := TasksForDate(d), Reference(d);
    forall i | 0 <= i < |ts| ensures ts[i].med == "Valvir" <==> r[i].med == "Valvir" {
      assert Matches(ts[i], d, r[i]);
    }
    if ValvirDay(d) {
      var k := if VitaminDDay(d) then 2 else 1;
      assert r[k].med == "Valvir";
    }
  }

  /** Within one day all dose identifiers are distinct, and all carry that day. */
  lemma TaskIdsDistinct(d: Day)
    ensures forall i | 0 <= i < |TasksForDate(d)| :: TasksForDate(d)[i].id.day == d
    ensures forall i, j | 0 <= i < j < |TasksForDate(d)| :: TasksForDate(d)[i].id != TasksForDate(d)[j].id
  {
    TasksMatchReference(d);
    var ts, r := TasksForDate(d), Reference(d);
    forall i, j | 0 <= i < j < |ts| ensures ts[i].id != ts[j].id {
      assert Matches(ts[i], d, r[i]) && Matches(ts[j], d, r[j]);
      ReferenceSlugsDistinct(d, i, j);
    }
  }

  lemma ReferenceSlugsDistinct(d: Day, i: int, j: int)
    requires 0 <= i < j < |Reference(d)|
    ensures Reference(d)[i].slug != Reference(d)[j].slug
  {
    var r := Reference(d);
    var si, sj := r[i].slug, r[j].slug;
    if |si| == |sj| {
      // Only the two slugs of one pair share a length; they differ right after the underscore.
      var medSlug := if IsoprinosineDay(d) then "isoprinosine" else "valvir";
      assert si == medSlug + "_morning" && sj == medSlug + "_evening";
      assert si[|medSlug| + 1] == 'm' && sj[|medSlug| + 1] == 'e';
    }
  }

  /** At most four doses a day: Isoprinosine and Valvir never share a day. */
  lemma AtMostFourDoses(d: Day)
    ensures |TasksForDate(d)| <= 4
    ensures !(IsoprinosineDay(d) && ValvirDay(d))
  {
    TasksMatchReference(d);
  }

  /** The start day, a Saturday of week 1: Prosentials and both Isoprinosine doses. */
  lemma StartDayScenario()
    ensures |TasksForDate(RegimenStart)| == 3
    ensures TasksForDate(RegimenStart)[0].id.slug == "prosentials_morning"
    ensures TasksForDate(RegimenStart)[1].id.slug == "isoprinosine_morning"
    ensures TasksForDate(RegimenStart)[2].id.slug == "isoprinosine_evening"
  {
    RegimenStartIsSaturday();
    TasksMatchReference(RegimenStart);
    assert Reference(RegimenStart) == [Entry("prosentials_morning", "Prosentials", Morning)] + Pair("isoprinosine", "Isoprinosine");
  }

  /** Four days later, a Wednesday: Prosentials and Vitamin D only. */
  lemma FirstWednesdayScenario()
    ensures |TasksForDate(RegimenStart + 4)| == 2
    ensures TasksForDate(RegimenStart + 4)[0].id.slug == "prosentials_morning"
    ensures TasksForDate(RegimenStart + 4)[1].id.slug == "vitd_morning"
  {
    RegimenStartIsSaturday();
    TasksMatchReference(RegimenStart + 4);
  }
}
