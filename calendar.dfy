/**
 * The calendar page's computations (src/pages/CalendarPage.tsx): tasks grouped
 * by due day, the tasks of the selected day, the mark drawn on each day, and
 * stepping the shown month. A due day is the day number the task's
 * "yyyy-MM-dd" due date names, so a key of the grouping is a day number too.
 */
module Calendar {
  import opened Wrappers
  import opened Seqs
  import opened Tasks

  /** The predicate "is due on `day`". */
  function DueOn(day: Day): Task -> bool
  {
    (t: Task) => t.dueDate == Some(day)
  }

  /** The days some task of `ts` is due on. */
  function DueDays(ts: seq<Task>): set<Day>
  {
    set t | t in ts && t.dueDate.Some? :: t.dueDate.value
  }

  /** The reference grouping: each due day maps to the tasks due that day, in input order. */
  function Grouped(ts: seq<Task>): map<Day, seq<Task>>
  {
    map day | day in DueDays(ts) :: Filter(ts, DueOn(day))
  }

  /** A day that no task is due on has no tasks due on it. */
  lemma NotDueNowhere(ts: seq<Task>, day: Day)
    requires day !in DueDays(ts)
    ensures Filter(ts, DueOn(day)) == []
  {
    assert forall t :: t in ts ==> !DueOn(day)(t);
    FilterNone(ts, DueOn(day));
  }

  /** Reading one more task adds its due day, if it has one. */
  lemma DueDaysSnoc(ts: seq<Task>, t: Task)
    ensures DueDays(ts + [t]) == DueDays(ts) + (if t.dueDate.Some? then {t.dueDate.value} else {})
  {
    assert forall x :: x in ts + [t] <==> x in ts || x == t;
  }

  /** Reading one more task without a due date changes no list. */
  lemma GroupedSnocUndated(ts: seq<Task>, t: Task)
    requires t.dueDate.None?
    ensures Grouped(ts + [t]) == Grouped(ts)
  {
    var g, g' := Grouped(ts), Grouped(ts + [t]);
    DueDaysSnoc(ts, t);
    forall day | day in g' ensures g'[day] == g[day] {
      FilterSnoc(ts, t, DueOn(day));
    }
  }

  /** Reading one more task with a due date pushes it onto that day's list, created empty if needed. */
  lemma GroupedSnocDated(ts: seq<Task>, t: Task, day: Day)
    requires t.dueDate == Some(day)
    ensures Grouped(ts + [t]) == Grouped(ts)[day := (if day in Grouped(ts) then Grouped(ts)[day] else []) + [t]]
  {
    var g, g' := Grouped(ts), Grouped(ts + [t]);
    DueDaysSnoc(ts, t);
    var expected := g[day := (if day in g then g[day] else []) + [t]];
    assert g'.Keys == expected.Keys;
    forall d | d in g' ensures g'[d] == expected[d] {
      FilterSnoc(ts, t, DueOn(d));
      if d == day && day !in g {
        NotDueNowhere(ts, day);
      }
    }
  }

  /** One step of the grouping loop: `t` goes at the end of its day's list, which is created empty first if absent. */
  function Push(m: map<Day, seq<Task>>, day: Day, t: Task): map<Day, seq<Task>>
  {
    m[day := (if day in m then m[day] else []) + [t]]
  }

  /** The grouping as the loop builds it, one task at a time from the front. */
  function Grouping(ts: seq<Task>): map<Day, seq<Task>>
  {
    if ts == [] then map[]
    else
      var g := Grouping(ts[..|ts| - 1]);
      var t := ts[|ts| - 1];
      if t.dueDate.None? then g else Push(g, t.dueDate.value, t)
  }

  /** The loop's grouping is the reference grouping. */
  lemma {:induction false} GroupingIsGrouped(ts: seq<Task>)
    ensures Grouping(ts) == Grouped(ts)
  {
    if ts != [] {
      var before, t := ts[..|ts| - 1], ts[|ts| - 1];
      assert ts == before + [t];
      GroupingIsGrouped(before);
      if t.dueDate.None? {
        GroupedSnocUndated(before, t);
      } else {
        GroupedSnocDated(before, t, t.dueDate.value);
      }
    }
  }

  /** Creating an empty list for a day and pushing onto it is one step of the grouping. */
  lemma PushOntoNewList(m: map<Day, seq<Task>>, day: Day, t: Task)
    requires day !in m
    ensures m[day := []][day := m[day := []][day] + [t]] == Push(m, day, t)
  {
    assert [] + [t] == [t];
  }

  /**
   * `tasksByDate`: one list per due day, holding the tasks due that day in input
   * order; tasks without a due date are left out.
   */
  method TasksByDate(ts: seq<Task>) returns (byDate: map<Day, seq<Task>>)
    ensures byDate.Keys == DueDays(ts)
    ensures forall day :: day in byDate ==> byDate[day] == Filter(ts, DueOn(day))
  {
    byDate := map[];
    var i := 0;
    while i < |ts|
      invariant 0 <= i <= |ts|
      invariant byDate == Grouping(ts[..i])
    {
      var t := ts[i];
      assert ts[..i + 1][..i] == ts[..i];
      if t.dueDate.Some? {
        var key := t.dueDate.value;
        if key !in byDate {
          PushOntoNewList(byDate, key, t);
          byDate := byDate[key := []];
        }
        byDate := byDate[key := byDate[key] + [t]];
      }
      i := i + 1;
    }
    assert ts[..i] == ts;
    GroupingIsGrouped(ts);
  }

  /**
   * Every task listed under a day is a task of the input due that day, so a task
   * without a due date is listed nowhere; each list keeps the input order.
   */
  lemma GroupedListsHoldTheirDay(ts: seq<Task>, day: Day)
    requires day in Grouped(ts)
    ensures forall t :: t in Grouped(ts)[day] ==> t in ts && t.dueDate == Some(day)
    ensures IsSubsequence(Grouped(ts)[day], ts)
  {
    FilterMembers(ts, DueOn(day));
    FilterIsSubsequence(ts, DueOn(day));
  }

  /**
   * Every task with a due date is listed under its day as often as it occurs in
   * the input, and under no other day.
   */
  lemma GroupedListsEachTaskOnce(ts: seq<Task>, t: Task)
    requires t in ts && t.dueDate.Some?
    ensures t.dueDate.value in Grouped(ts)
    ensures multiset(Grouped(ts)[t.dueDate.value])[t] == multiset(ts)[t]
    ensures forall day :: day in Grouped(ts) && day != t.dueDate.value ==> multiset(Grouped(ts)[day])[t] == 0
  {
    assert t.dueDate.value in DueDays(ts);
    forall day | day in Grouped(ts) ensures multiset(Grouped(ts)[day])[t] == if day == t.dueDate.value then multiset(ts)[t] else 0 {
      FilterMultiset(ts, DueOn(day));
    }
  }

  /** `selectedTasks`: nothing without a selected day, else that day's list, or nothing when it has none. */
  function SelectedTasks(byDate: map<Day, seq<Task>>, selected: Option<Day>): seq<Task>
  {
    match selected
    case None => []
    case Some(day) => if day in byDate then byDate[day] else []
  }

  /** The selected day's tasks are exactly the tasks due that day, in input order. */
  lemma SelectedTasksAreDue(ts: seq<Task>, selected: Option<Day>)
    ensures selected.None? ==> SelectedTasks(Grouped(ts), selected) == []
    ensures selected.Some? ==> SelectedTasks(Grouped(ts), selected) == Filter(ts, DueOn(selected.value))
  {
    if selected.Some? && selected.value !in Grouped(ts) {
      NotDueNowhere(ts, selected.value);
    }
  }

  /** The dot drawn on a day of the grid: whether it has tasks, and whether all of them are done. */
  datatype DayMark = DayMark(hasTask: bool, allDone: bool)

  /** `hasTask` and `allDone` for `day`, from the grouping. */
  function MarkOf(byDate: map<Day, seq<Task>>, day: Day): DayMark
  {
    var dayTasks := if day in byDate then byDate[day] else [];
    var hasTask := |dayTasks| > 0;
    DayMark(hasTask, hasTask && Every(dayTasks, IsDone))
  }

  /** A day has tasks iff some task is due on it, and they are all done iff moreover every task due on it is completed. */
  lemma MarkOfMeaning(ts: seq<Task>, day: Day)
    ensures MarkOf(Grouped(ts), day).hasTask <==> exists t :: t in ts && t.dueDate == Some(day)
    ensures MarkOf(Grouped(ts), day).allDone <==>
      (exists t :: t in ts && t.dueDate == Some(day)) && (forall t :: t in ts && t.dueDate == Some(day) ==> t.completed)
  {
    var dayTasks := Filter(ts, DueOn(day));
    FilterMembers(ts, DueOn(day));
    if day !in Grouped(ts) {
      NotDueNowhere(ts, day);
    } else {
      assert dayTasks[0] in dayTasks;
      if forall t :: t in ts && t.dueDate == Some(day) ==> t.completed {
        assert Every(dayTasks, IsDone) by {
          forall i | 0 <= i < |dayTasks| ensures IsDone(dayTasks[i]) {
            assert dayTasks[i] in dayTasks;
          }
        }
      }
      if Every(dayTasks, IsDone) {
        forall t | t in ts && t.dueDate == Some(day) ensures t.completed {
          assert t in dayTasks;
          var i :| 0 <= i < |dayTasks| && dayTasks[i] == t;
        }
      }
    }
  }

  // ----- month stepping -----

  /** A calendar date; `month` counts from 0 (January) to 11 (December), as `Date.getMonth()` does. */
  datatype CalDate = CalDate(year: int, month: int, day: int)

  /** `new Date(year, month, 1)`: a month outside 0..11 carries into the year. */
  function FirstOf(year: int, month: int): (d: CalDate)
    ensures 0 <= d.month < 12 && d.day == 1
    ensures 12 * d.year + d.month == 12 * year + month
  {
    CalDate(year + month / 12, month % 12, 1)
  }

  /** `prevMonth`: the first day of the month before `d`'s. */
  function PrevMonth(d: CalDate): CalDate
  {
    FirstOf(d.year, d.month - 1)
  }

  /** `nextMonth`: the first day of the month after `d`'s. */
  function NextMonth(d: CalDate): CalDate
  {
    FirstOf(d.year, d.month + 1)
  }

  /** The month index `12 * year + month` names a month uniquely. */
  lemma MonthIndexDetermines(a: CalDate, b: CalDate)
    requires 0 <= a.month < 12 && 0 <= b.month < 12
    requires 12 * a.year + a.month == 12 * b.year + b.month
    ensures a.year == b.year && a.month == b.month
  {
  }

  /**
   * Stepping moves to day 1 of the adjacent month, rolling the year over between
   * December and January, and stepping back and forth returns to day 1 of the
   * starting month.
   */
  lemma MonthStepping(d: CalDate)
    requires 0 <= d.month < 12
    ensures NextMonth(d) == if d.month == 11 then CalDate(d.year + 1, 0, 1) else CalDate(d.year, d.month + 1, 1)
    ensures PrevMonth(d) == if d.month == 0 then CalDate(d.year - 1, 11, 1) else CalDate(d.year, d.month - 1, 1)
    ensures PrevMonth(NextMonth(d)) == CalDate(d.year, d.month, 1)
    ensures NextMonth(PrevMonth(d)) == CalDate(d.year, d.month, 1)
  {
    var next := if d.month == 11 then CalDate(d.year + 1, 0, 1) else CalDate(d.year, d.month + 1, 1);
    MonthIndexDetermines(NextMonth(d), next);
    var prev := if d.month == 0 then CalDate(d.year - 1, 11, 1) else CalDate(d.year, d.month - 1, 1);
    MonthIndexDetermines(PrevMonth(d), prev);
    MonthIndexDetermines(PrevMonth(NextMonth(d)), CalDate(d.year, d.month, 1));
    MonthIndexDetermines(NextMonth(PrevMonth(d)), CalDate(d.year, d.month, 1));
  }
}
