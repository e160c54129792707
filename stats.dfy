/**
 * The statistics page's computations (src/pages/StatsPage.tsx): the summary
 * figures, the last seven days, the per-category breakdown and the streak.
 * "Today" and the day of a creation instant are days counted from the epoch.
 */
module Stats {
  import opened Seqs
  import opened Tasks

  const MsPerDay: int := 86400000

  /** The calendar day an instant (milliseconds since the epoch) falls on. */
  function DayOf(instant: int): Day
  {
    instant / MsPerDay
  }

  /** The predicate `t => isSameDay(new Date(t.createdAt), day)`. */
  function CreatedOn(day: Day): Task -> bool
  {
    (t: Task) => DayOf(t.createdAt) == day
  }

  /** The predicate `t => t.completed && isSameDay(new Date(t.createdAt), day)`. */
  function CompletedOn(day: Day): Task -> bool
  {
    (t: Task) => t.completed && DayOf(t.createdAt) == day
  }

  // ----- total, completed, active, rate -----

  datatype Summary = Summary(total: nat, completed: nat, active: int, rate: int)

  /**
   * `Math.round((completed / total) * 100)`, or 0 when there are no tasks,
   * computed on exact rationals: the nearest integer, halves rounded up.
   */
  function Rate(completed: nat, total: nat): int
  {
    if total > 0 then (200 * completed + total) / (2 * total) else 0
  }

  /** Multiplying by a non-negative number keeps the order. */
  lemma MulMonotone(d: int, a: int, b: int)
    requires d >= 0 && a <= b
    ensures d * a <= d * b
  {
    assert d * b - d * a == d * (b - a);
  }

  /** A quotient is below `c + 1` when the dividend is below `d * (c + 1)`. */
  lemma QuotientAtMost(n: int, d: int, c: int)
    requires d > 0 && n < d * (c + 1)
    ensures n / d <= c
  {
    var q := n / d;
    assert d * q <= n;
    if q > c {
      MulMonotone(d, c + 1, q);
    }
  }

  /** A quotient is at least `c` when the dividend is at least `d * c`. */
  lemma QuotientAtLeast(n: int, d: int, c: int)
    requires d > 0 && d * c <= n
    ensures n / d >= c
  {
    var q := n / d;
    assert n < d * q + d == d * (q + 1);
    if q < c {
      MulMonotone(d, q + 1, c);
    }
  }

  /**
   * The rate is a percentage: 0 with no tasks or none completed, 100 when all are
   * completed, and otherwise the whole number nearest to 100 * completed / total.
   */
  lemma RateBounds(completed: nat, total: nat)
    requires completed <= total
    ensures 0 <= Rate(completed, total) <= 100
    ensures total == 0 || completed == 0 ==> Rate(completed, total) == 0
    ensures total > 0 && completed == total ==> Rate(completed, total) == 100
    ensures total > 0 ==> 2 * total * Rate(completed, total) <= 200 * completed + total < 2 * total * Rate(completed, total) + 2 * total
  {
    if total > 0 {
      var n, d := 200 * completed + total, 2 * total;
      assert n == d * (n / d) + n % d;
      QuotientAtLeast(n, d, 0);
      QuotientAtMost(n, d, 100);
      if completed == 0 {
        QuotientAtMost(n, d, 0);
      }
      if completed == total {
        QuotientAtLeast(n, d, 100);
      }
    }
  }

  /** `{ total, completed, active, rate }`. */
  function Summarize(ts: seq<Task>): Summary
  {
    var total := |ts|;
    var completed := Count(ts, IsDone);
    Summary(total, completed, total - completed, Rate(completed, total))
  }

  /**
   * The summary's figures agree: the completed tasks are among all tasks, the
   * active ones are the rest, and the rate is a percentage.
   */
  lemma SummaryIsConsistent(ts: seq<Task>)
    ensures Summarize(ts).completed <= Summarize(ts).total == |ts|
    ensures Summarize(ts).active == Summarize(ts).total - Summarize(ts).completed == Count(ts, IsActive)
    ensures 0 <= Summarize(ts).rate <= 100
    ensures ts == [] ==> Summarize(ts).rate == 0
    ensures ts != [] && Summarize(ts).completed == |ts| ==> Summarize(ts).rate == 100
  {
    CountComplement(ts, IsActive, IsDone);
    RateBounds(Count(ts, IsDone), |ts|);
  }

  // ----- the last seven days -----

  datatype DayCount = DayCount(day: Day, total: nat, completed: nat)

  /** `last7`: for each day from six days ago to today, the tasks created that day and how many of them are completed. */
  function Last7(ts: seq<Task>, today: Day): seq<DayCount>
  {
    seq(7, i requires 0 <= i < 7 => DayCount(today - (6 - i), Count(ts, CreatedOn(today - (6 - i))), Count(ts, CompletedOn(today - (6 - i)))))
  }

  /** `last7` has one entry per day, oldest first, ending today, and no day has more completed than created tasks. */
  lemma Last7Shape(ts: seq<Task>, today: Day)
    ensures |Last7(ts, today)| == 7
    ensures forall i :: 0 <= i < 7 ==> Last7(ts, today)[i].day == today - 6 + i
    ensures forall i :: 0 <= i < 7 ==> Last7(ts, today)[i].completed <= Last7(ts, today)[i].total <= |ts|
  {
    forall i | 0 <= i < 7 ensures Last7(ts, today)[i].completed <= Last7(ts, today)[i].total <= |ts| {
      CountMonotone(ts, CompletedOn(today - (6 - i)), CreatedOn(today - (6 - i)));
    }
  }

  /** `Math.max(...last7.map(d => d.total), 1)`: the tallest bar, never below 1. */
  function MaxDaily(days: seq<DayCount>): (m: nat)
    ensures m >= 1
    ensures forall i :: 0 <= i < |days| ==> days[i].total <= m
    ensures m == 1 || exists i :: 0 <= i < |days| && days[i].total == m
  {
    if days == [] then 1
    else
      var rest := MaxDaily(days[1..]);
      assert forall i :: 1 <= i < |days| ==> days[i] == days[1..][i - 1];
      assert forall j :: 0 <= j < |days| - 1 ==> days[1..][j] == days[j + 1];
      if days[0].total > rest then days[0].total else rest
  }

  // ----- the per-category breakdown -----

  datatype Tally = Tally(total: nat, completed: nat)

  /** The label each task is counted under, task by task. */
  function Labels(ts: seq<Task>): (r: seq<string>)
    ensures |r| == |ts|
  {
    if ts == [] then [] else Labels(ts[..|ts| - 1]) + [CategoryOf(ts[|ts| - 1])]
  }

  /** The tallies of `keys`, added up field by field. */
  function SumTallies(keys: seq<string>, m: map<string, Tally>): Tally
    requires forall k :: k in keys ==> k in m
  {
    if keys == [] then Tally(0, 0)
    else
      var rest := SumTallies(keys[..|keys| - 1], m);
      var last := m[keys[|keys| - 1]];
      Tally(rest.total + last.total, rest.completed + last.completed)
  }

  /** Tallies that agree on `keys` add up alike. */
  lemma {:induction false} SumTalliesFrame(keys: seq<string>, m: map<string, Tally>, m': map<string, Tally>)
    requires forall k :: k in keys ==> k in m && k in m' && m[k] == m'[k]
    ensures SumTallies(keys, m) == SumTallies(keys, m')
  {
    if keys != [] {
      SumTalliesFrame(keys[..|keys| - 1], m, m');
    }
  }

  /** Changing the tally of one key that occurs once in `keys` changes the sum by the difference. */
  lemma {:induction false} SumTalliesUpdate(keys: seq<string>, m: map<string, Tally>, k: string, v: Tally)
    requires Distinct(keys) && k in keys
    requires forall j :: j in keys ==> j in m
    ensures SumTallies(keys, m[k := v]).total + m[k].total == SumTallies(keys, m).total + v.total
    ensures SumTallies(keys, m[k := v]).completed + m[k].completed == SumTallies(keys, m).completed + v.completed
  {
    var init := keys[..|keys| - 1];
    var last := keys[|keys| - 1];
    assert keys == init + [last];
    assert forall j :: j in init ==> j in keys;
    if last == k {
      assert k !in init by {
        forall i | 0 <= i < |init| ensures init[i] != k {
          assert init[i] == keys[i];
        }
      }
      SumTalliesFrame(init, m, m[k := v]);
    } else {
      assert k in init;
      assert Distinct(init) by {
        forall i, j | 0 <= i < j < |init| ensures init[i] != init[j] {
          assert init[i] == keys[i] && init[j] == keys[j];
        }
      }
      SumTalliesUpdate(init, m, k, v);
    }
  }

  /**
   * What the per-category loop has built after reading `ts`: the labels in order of
   * first occurrence, one tally per label counting its tasks and its completed
   * tasks, and tallies that add up to all tasks and all completed tasks.
   */
  ghost predicate Tallied(ts: seq<Task>, keys: seq<string>, m: map<string, Tally>)
  {
    && keys == FirstOccurrences(Labels(ts))
    && m.Keys == (set k | k in keys)
    && (forall k :: k in m ==> m[k] == Tally(Count(ts, InCategory(k)), Count(ts, CompletedIn(k))))
    && SumTallies(keys, m) == Tally(|ts|, Count(ts, IsDone))
  }

  /** One more task counted in a tally. */
  function Bumped(entry: Tally, completed: bool): Tally
  {
    Tally(entry.total + 1, if completed then entry.completed + 1 else entry.completed)
  }

  /** The labels of `ts + [t]` are those of `ts` followed by the label of `t`. */
  lemma LabelsSnoc(ts: seq<Task>, t: Task)
    ensures Labels(ts + [t]) == Labels(ts) + [CategoryOf(t)]
    ensures Labels(ts + [t])[..|ts|] == Labels(ts)
  {
    assert (ts + [t])[..|ts|] == ts;
  }

  /** Each task's label stands at its position. */
  lemma {:induction false} LabelsAt(ts: seq<Task>, j: int)
    requires 0 <= j < |ts|
    ensures |Labels(ts)| == |ts| && Labels(ts)[j] == CategoryOf(ts[j])
  {
    var init := ts[..|ts| - 1];
    if j < |ts| - 1 {
      LabelsAt(init, j);
    } else if init != [] {
      LabelsAt(init, 0);
    }
  }

  /** A label that is not yet a key counts no task so far. */
  lemma NewLabelCountsNothing(ts: seq<Task>, keys: seq<string>, c: string)
    requires keys == FirstOccurrences(Labels(ts)) && c !in keys
    ensures Count(ts, InCategory(c)) == 0 && Count(ts, CompletedIn(c)) == 0
  {
    forall x | x in ts ensures !InCategory(c)(x) {
      var j :| 0 <= j < |ts| && ts[j] == x;
      LabelsAt(ts, j);
    }
    FilterNone(ts, InCategory(c));
    CountMonotone(ts, CompletedIn(c), InCategory(c));
  }

  /** The labels after reading `t`: its label is appended when it is new. */
  lemma TallyStepKeys(ts: seq<Task>, t: Task, keys: seq<string>, m: map<string, Tally>, keys': seq<string>, m': map<string, Tally>)
    requires keys == FirstOccurrences(Labels(ts)) && m.Keys == (set k | k in keys)
    requires keys' == if CategoryOf(t) in m then keys else keys + [CategoryOf(t)]
    requires m'.Keys == m.Keys + {CategoryOf(t)}
    ensures keys' == FirstOccurrences(Labels(ts + [t])) && m'.Keys == (set k | k in keys')
  {
    LabelsSnoc(ts, t);
  }

  /** The tallies after reading `t`: the one for its label is bumped, the others stay. */
  lemma TallyStepCounts(ts: seq<Task>, t: Task, keys: seq<string>, m: map<string, Tally>, m': map<string, Tally>)
    requires keys == FirstOccurrences(Labels(ts)) && m.Keys == (set k | k in keys)
    requires forall k :: k in m ==> m[k] == Tally(Count(ts, InCategory(k)), Count(ts, CompletedIn(k)))
    requires m' == m[CategoryOf(t) := Bumped(if CategoryOf(t) in m then m[CategoryOf(t)] else Tally(0, 0), t.completed)]
    ensures forall k :: k in m' ==> m'[k] == Tally(Count(ts + [t], InCategory(k)), Count(ts + [t], CompletedIn(k)))
  {
    var c := CategoryOf(t);
    forall k | k in m' ensures m'[k] == Tally(Count(ts + [t], InCategory(k)), Count(ts + [t], CompletedIn(k))) {
      CountSnoc(ts, t, InCategory(k));
      CountSnoc(ts, t, CompletedIn(k));
      if k == c && c !in m {
        NewLabelCountsNothing(ts, keys, c);
      }
    }
  }

  /** The sum of the tallies after reading `t` grows by one task, and by one completed task if `t` is completed. */
  lemma TallyStepSum(ts: seq<Task>, t: Task, keys: seq<string>, m: map<string, Tally>, keys': seq<string>, m': map<string, Tally>)
    requires Distinct(keys) && m.Keys == (set k | k in keys)
    requires SumTallies(keys, m) == Tally(|ts|, Count(ts, IsDone))
    requires keys' == if CategoryOf(t) in m then keys else keys + [CategoryOf(t)]
    requires m' == m[CategoryOf(t) := Bumped(if CategoryOf(t) in m then m[CategoryOf(t)] else Tally(0, 0), t.completed)]
    ensures forall k :: k in keys' ==> k in m'
    ensures SumTallies(keys', m') == Tally(|ts + [t]|, Count(ts + [t], IsDone))
  {
    var c := CategoryOf(t);
    CountSnoc(ts, t, IsDone);
    if c in m {
      SumTalliesUpdate(keys, m, c, m'[c]);
    } else {
      assert keys'[..|keys|] == keys;
      SumTalliesFrame(keys, m, m');
    }
  }

  /** Reading one more task keeps `Tallied`. */
  lemma TallyStep(ts: seq<Task>, t: Task, keys: seq<string>, m: map<string, Tally>, keys': seq<string>, m': map<string, Tally>)
    requires Tallied(ts, keys, m)
    requires keys' == if CategoryOf(t) in m then keys else keys + [CategoryOf(t)]
    requires m' == m[CategoryOf(t) := Bumped(if CategoryOf(t) in m then m[CategoryOf(t)] else Tally(0, 0), t.completed)]
    ensures Tallied(ts + [t], keys', m')
  {
    TallyStepKeys(ts, t, keys, m, keys', m');
    TallyStepCounts(ts, t, keys, m, m');
    TallyStepSum(ts, t, keys, m, keys', m');
  }

  /** The labels in order of first occurrence and the tally of each. */
  datatype Breakdown = Breakdown(keys: seq<string>, tallies: map<string, Tally>)

  /** What the per-category loop holds after reading `ts`, one task at a time. */
  function Tallies(ts: seq<Task>): Breakdown
  {
    if ts == [] then Breakdown([], map[])
    else
      var b := Tallies(ts[..|ts| - 1]);
      var t := ts[|ts| - 1];
      var c := CategoryOf(t);
      if c in b.tallies then Breakdown(b.keys, b.tallies[c := Bumped(b.tallies[c], t.completed)])
      else Breakdown(b.keys + [c], b.tallies[c := Bumped(Tally(0, 0), t.completed)])
  }

  /** The breakdown built from `ts` satisfies `Tallied`. */
  lemma {:induction false} TalliesAreTallied(ts: seq<Task>)
    ensures Tallied(ts, Tallies(ts).keys, Tallies(ts).tallies)
  {
    if ts != [] {
      var init, t := ts[..|ts| - 1], ts[|ts| - 1];
      assert ts == init + [t];
      TalliesAreTallied(init);
      var b := Tallies(init);
      TallyStep(init, t, b.keys, b.tallies, Tallies(ts).keys, Tallies(ts).tallies);
    }
  }

  /**
   * The breakdown of `ts`: one tally per label, in the order the labels first occur,
   * each counting the tasks filed under it and the completed ones among them (never
   * more than the former), adding up to all tasks and all completed tasks.
   */
  lemma TalliesMeaning(ts: seq<Task>)
    ensures Tallies(ts).keys == FirstOccurrences(Labels(ts))
    ensures Tallies(ts).tallies.Keys == set k | k in Tallies(ts).keys
    ensures forall k :: k in Tallies(ts).tallies ==> Tallies(ts).tallies[k] == Tally(Count(ts, InCategory(k)), Count(ts, CompletedIn(k)))
    ensures forall k :: k in Tallies(ts).tallies ==> Tallies(ts).tallies[k].completed <= Tallies(ts).tallies[k].total
    ensures SumTallies(Tallies(ts).keys, Tallies(ts).tallies) == Tally(|ts|, Count(ts, IsDone))
  {
    TalliesAreTallied(ts);
    forall k | k in Tallies(ts).tallies ensures Tallies(ts).tallies[k].completed <= Tallies(ts).tallies[k].total {
      CountMonotone(ts, CompletedIn(k), InCategory(k));
    }
  }

  /** A second update of the same key overrides the first. */
  lemma UpdateTwice(m: map<string, Tally>, k: string, v: Tally, w: Tally)
    ensures m[k := v][k := w] == m[k := w]
  {
  }

  /**
   * `byCategory`: one entry per label, in the order the labels first occur, each
   * counting the tasks filed under it and the completed ones among them. The
   * entries add up to all tasks and all completed tasks.
   */
  method ByCategory(ts: seq<Task>) returns (keys: seq<string>, byCategory: map<string, Tally>)
    ensures keys == FirstOccurrences(Labels(ts))
    ensures byCategory.Keys == set k | k in keys
    ensures forall k :: k in byCategory ==> byCategory[k] == Tally(Count(ts, InCategory(k)), Count(ts, CompletedIn(k)))
    ensures forall k :: k in byCategory ==> byCategory[k].completed <= byCategory[k].total
    ensures SumTallies(keys, byCategory) == Tally(|ts|, Count(ts, IsDone))
  {
    keys, byCategory := [], map[];
    var i := 0;
    while i < |ts|
      invariant 0 <= i <= |ts|
      invariant Breakdown(keys, byCategory) == Tallies(ts[..i])
    {
      var t := ts[i];
      var category := CategoryOf(t);
      assert ts[..i + 1][..i] == ts[..i];
      ghost var before := byCategory;
      if category !in byCategory {
        byCategory := byCategory[category := Tally(0, 0)];
        keys := keys + [category];
      }
      var entry := byCategory[category];
      byCategory := byCategory[category := Tally(entry.total + 1, if t.completed then entry.completed + 1 else entry.completed)];
      if category !in before {
        UpdateTwice(before, category, Tally(0, 0), Bumped(Tally(0, 0), t.completed));
      }
      i := i + 1;
    }
    assert ts[..i] == ts;
    TalliesMeaning(ts);
  }

  // ----- the streak -----

  /** At least one task created `back` days before `today` is completed. */
  predicate CompletedDaysAgo(ts: seq<Task>, today: Day, back: nat)
  {
    Count(ts, CompletedOn(today - back)) > 0
  }

  /**
   * `streak`: going back from today for at most 30 days, the number of days in a
   * row on each of which some completed task was created; it stops at the first
   * day without one.
   */
  method Streak(ts: seq<Task>, today: Day) returns (streak: nat)
    ensures streak <= 30
    ensures forall back :: 0 <= back < streak ==> CompletedDaysAgo(ts, today, back)
    ensures streak < 30 ==> !CompletedDaysAgo(ts, today, streak)
  {
    streak := 0;
    var i := 0;
    while i < 30
      invariant 0 <= i <= 30 && streak == i
      invariant forall back :: 0 <= back < i ==> CompletedDaysAgo(ts, today, back)
    {
      var day := today - i;
      var dayCompleted := Count(ts, CompletedOn(day));
      if dayCompleted > 0 {
        streak := streak + 1;
      } else {
        break;
      }
      i := i + 1;
    }
  }
}
