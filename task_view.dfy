/**
 * The derived view of the task store (src/hooks/useTasks.ts, `filteredTasks`
 * and `counts`): a pure function of the collection, the filter and the
 * search text.
 */
module TaskView {
  import opened Wrappers
  import opened Seqs
  import opened Text
  import opened Tasks

  // ----- the sort comparator -----

  /**
   * The comparator handed to `sort`: negative when `a` goes first, positive when
   * `b` does. Incomplete before complete; then a due date before none; then the
   * earlier due date; then, between two undated tasks, the later `createdAt`.
   */
  function Compare(a: Task, b: Task): int
  {
    if a.completed != b.completed then (if a.completed then 1 else -1)
    else if a.dueDate.Some? && b.dueDate.Some? then a.dueDate.value - b.dueDate.value
    else if a.dueDate.Some? then -1
    else if b.dueDate.Some? then 1
    else b.createdAt - a.createdAt
  }

  /** `a` may come before `b` in the sorted view. */
  predicate Precedes(a: Task, b: Task)
  {
    Compare(a, b) <= 0
  }

  /** The comparator ranks every pair, consistently: it is a total preorder whose ties form an equivalence. */
  lemma CompareIsTotalPreorder(a: Task, b: Task, c: Task)
    ensures Precedes(a, b) || Precedes(b, a)
    ensures Precedes(a, b) && Precedes(b, c) ==> Precedes(a, c)
    ensures (Compare(a, b) < 0 <==> Compare(b, a) > 0) && (Compare(a, b) == 0 <==> Compare(b, a) == 0)
    ensures Compare(a, c) == 0 && Compare(b, c) == 0 ==> Compare(a, b) == 0
  {
  }

  /** Every earlier element may precede every later one. */
  predicate IsSorted(s: seq<Task>)
  {
    forall i, j :: 0 <= i < j < |s| ==> Precedes(s[i], s[j])
  }

  /** The tasks the comparator ranks level with `x`. */
  function TiedWith(x: Task): Task -> bool
  {
    (t: Task) => Compare(t, x) == 0
  }

  /**
   * `x` placed ahead of the first element of `s` that it may precede (at the end
   * if there is none); in a sorted `s`, that keeps `x` ahead of every element it
   * ties with.
   */
  function Insert(x: Task, s: seq<Task>): seq<Task>
  {
    if s == [] then [x]
    else if Precedes(x, s[0]) then [x] + s
    else [s[0]] + Insert(x, s[1..])
  }

  /**
   * `[...result].sort(compare)`: a stable sort by the comparator (insertion
   * sort; ECMAScript requires `Array.prototype.sort` to be stable).
   */
  function Sort(s: seq<Task>): seq<Task>
  {
    if s == [] then [] else Insert(s[0], Sort(s[1..]))
  }

  /** Inserting adds exactly `x`. */
  lemma {:induction false} InsertAddsOne(x: Task, s: seq<Task>)
    ensures multiset(Insert(x, s)) == multiset(s) + multiset{x}
  {
    if s != [] && !Precedes(x, s[0]) {
      InsertAddsOne(x, s[1..]);
      assert s == [s[0]] + s[1..];
    }
  }

  /** `x` may precede every element of `s`. */
  predicate PrecedesAll(x: Task, s: seq<Task>)
  {
    forall j :: 0 <= j < |s| ==> Precedes(x, s[j])
  }

  /** A sequence with a head is sorted when its head may precede the rest and the rest is sorted. */
  lemma SortedCons(y: Task, s: seq<Task>)
    ensures IsSorted([y] + s) <==> PrecedesAll(y, s) && IsSorted(s)
  {
    var r := [y] + s;
    if PrecedesAll(y, s) && IsSorted(s) {
      forall i, j | 0 <= i < j < |r| ensures Precedes(r[i], r[j]) {
        assert r[j] == s[j - 1];
        if i > 0 {
          assert r[i] == s[i - 1];
        }
      }
    }
    if IsSorted(r) {
      forall i, j | 0 <= i < j < |s| ensures Precedes(s[i], s[j]) {
        assert s[i] == r[i + 1] && s[j] == r[j + 1];
      }
      forall j | 0 <= j < |s| ensures Precedes(y, s[j]) {
        assert r[0] == y && r[j + 1] == s[j];
        assert Precedes(r[0], r[j + 1]);
      }
    }
  }

  /** What may precede `x` and everything in `s` may precede everything in `Insert(x, s)`. */
  lemma {:induction false} InsertKeepsPrecedesAll(y: Task, x: Task, s: seq<Task>)
    requires PrecedesAll(y, s) && Precedes(y, x)
    ensures PrecedesAll(y, Insert(x, s))
  {
    if s != [] && !Precedes(x, s[0]) {
      assert PrecedesAll(y, s[1..]) by {
        forall j | 0 <= j < |s[1..]| ensures Precedes(y, s[1..][j]) {
          assert s[1..][j] == s[j + 1];
        }
      }
      InsertKeepsPrecedesAll(y, x, s[1..]);
      SortedCons(y, [s[0]] + Insert(x, s[1..]));
      var r := [s[0]] + Insert(x, s[1..]);
      forall j | 0 <= j < |r| ensures Precedes(y, r[j]) {
        if j > 0 {
          assert r[j] == Insert(x, s[1..])[j - 1];
        }
      }
    } else if s != [] {
      forall j | 0 <= j < |[x] + s| ensures Precedes(y, ([x] + s)[j]) {
        if j > 0 {
          assert ([x] + s)[j] == s[j - 1];
        }
      }
    }
  }

  /** Inserting into a sorted sequence keeps it sorted. */
  lemma {:induction false} InsertKeepsSorted(x: Task, s: seq<Task>)
    requires IsSorted(s)
    ensures IsSorted(Insert(x, s))
  {
    if s == [] {
    } else if Precedes(x, s[0]) {
      assert s == [s[0]] + s[1..];
      SortedCons(s[0], s[1..]);
      forall j | 0 <= j < |s| ensures Precedes(x, s[j]) {
        CompareIsTotalPreorder(x, s[0], s[j]);
      }
      SortedCons(x, s);
    } else {
      assert s == [s[0]] + s[1..];
      SortedCons(s[0], s[1..]);
      InsertKeepsSorted(x, s[1..]);
      CompareIsTotalPreorder(x, s[0], x);
      InsertKeepsPrecedesAll(s[0], x, s[1..]);
      SortedCons(s[0], Insert(x, s[1..]));
    }
  }

  /** The sort orders its input by the comparator and keeps exactly its elements. */
  lemma {:induction false} SortSortsAndPermutes(s: seq<Task>)
    ensures IsSorted(Sort(s))
    ensures multiset(Sort(s)) == multiset(s)
  {
    if s != [] {
      SortSortsAndPermutes(s[1..]);
      InsertKeepsSorted(s[0], Sort(s[1..]));
      InsertAddsOne(s[0], Sort(s[1..]));
      assert s == [s[0]] + s[1..];
    }
  }

  /** Inserting `x` puts it ahead of everything it ties with and leaves their order alone. */
  lemma {:induction false} InsertKeepsTiesInOrder(x: Task, s: seq<Task>, z: Task)
    ensures Filter(Insert(x, s), TiedWith(z)) == (if TiedWith(z)(x) then [x] else []) + Filter(s, TiedWith(z))
  {
    var tied := TiedWith(z);
    if s != [] && !Precedes(x, s[0]) {
      var rest := Insert(x, s[1..]);
      var r := Insert(x, s);
      assert r == [s[0]] + rest;
      assert r[0] == s[0] && r[1..] == rest;
      assert Filter(r, tied) == (if tied(s[0]) then [s[0]] else []) + Filter(rest, tied);
      InsertKeepsTiesInOrder(x, s[1..], z);
      assert Filter(rest, tied) == (if tied(x) then [x] else []) + Filter(s[1..], tied);
      assert Filter(s, tied) == (if tied(s[0]) then [s[0]] else []) + Filter(s[1..], tied);
      assert !(tied(x) && tied(s[0])) by {
        if tied(x) && tied(s[0]) {
          CompareIsTotalPreorder(x, s[0], z);
        }
      }
    }
  }

  /** The sort is stable: tasks that tie keep the order they had in the input. */
  lemma {:induction false} SortIsStable(s: seq<Task>, z: Task)
    ensures Filter(Sort(s), TiedWith(z)) == Filter(s, TiedWith(z))
  {
    if s != [] {
      SortIsStable(s[1..], z);
      InsertKeepsTiesInOrder(s[0], Sort(s[1..]), z);
    }
  }

  /**
   * What it means for the view to be sorted, rule by rule: for any two tasks, the
   * one listed first is incomplete if the other is; of two with the same status,
   * an undated one never precedes a dated one; two dated ones are in ascending
   * due-date order; two undated ones in descending creation order.
   */
  lemma SortedOrderRules(s: seq<Task>)
    requires IsSorted(s)
    ensures forall i, j :: 0 <= i < j < |s| ==>
      var a, b := s[i], s[j];
      && (a.completed ==> b.completed)
      && (a.completed == b.completed && b.dueDate.Some? ==> a.dueDate.Some?)
      && (a.completed == b.completed && a.dueDate.Some? && b.dueDate.Some? ==> a.dueDate.value <= b.dueDate.value)
      && (a.completed == b.completed && a.dueDate.None? && b.dueDate.None? ==> a.createdAt >= b.createdAt)
  {
    forall i, j | 0 <= i < j < |s| ensures Precedes(s[i], s[j]) {
    }
  }

  // ----- filtering and search -----

  /** The status filter: "active" keeps incomplete tasks, "completed" complete ones, "all" everything. */
  function ByStatus(ts: seq<Task>, filter: FilterType): seq<Task>
  {
    match filter
    case All => ts
    case Active => Filter(ts, IsActive)
    case Completed => Filter(ts, IsDone)
  }

  /** The predicate `t => t.title.toLowerCase().includes(q)`. */
  function TitleIncludes(q: string): Task -> bool
  {
    (t: Task) => Includes(ToLower(t.title), q)
  }

  /**
   * The search: only when the trimmed text is non-empty, keep the tasks whose
   * lower-cased title contains the lower-cased, UNtrimmed text.
   */
  function BySearch(ts: seq<Task>, search: string): seq<Task>
  {
    if Trim(search) != [] then Filter(ts, TitleIncludes(ToLower(search))) else ts
  }

  /** `filteredTasks`: filter by status, then by search, then sort. */
  function FilteredTasks(ts: seq<Task>, filter: FilterType, search: string): seq<Task>
  {
    Sort(BySearch(ByStatus(ts, filter), search))
  }

  /**
   * Which tasks the view shows, stated without the filtering pipeline: the status
   * agrees with the filter, and either the search text is all white space or the
   * lower-cased text occurs somewhere in the lower-cased title.
   */
  ghost predicate Shown(t: Task, filter: FilterType, search: string)
  {
    && (filter == Active ==> !t.completed)
    && (filter == Completed ==> t.completed)
    && (IsBlank(search) || Occurs(ToLower(t.title), ToLower(search)))
  }

  ghost function ShownBy(filter: FilterType, search: string): Task -> bool
  {
    (t: Task) => Shown(t, filter, search)
  }

  lemma TitleIncludesIffOccurs(q: string, t: Task)
    ensures TitleIncludes(q)(t) <==> Occurs(ToLower(t.title), q)
  {
    assert TitleIncludes(q)(t) == Includes(ToLower(t.title), q);
    IncludesIffOccurs(ToLower(t.title), q);
  }

  /** The status filter followed by the search keeps exactly the shown tasks, in collection order. */
  lemma SelectionIsShown(ts: seq<Task>, filter: FilterType, search: string)
    ensures BySearch(ByStatus(ts, filter), search) == Filter(ts, ShownBy(filter, search))
  {
    TrimEmptyIffBlank(search);
    var q := ToLower(search);
    var status: Task -> bool := (t: Task) => (filter == Active ==> !t.completed) && (filter == Completed ==> t.completed);
    assert ByStatus(ts, filter) == Filter(ts, status) by {
      match filter {
        case All => FilterKeepsAll(ts, status);
        case Active => FilterCongruent(ts, IsActive, status);
        case Completed => FilterCongruent(ts, IsDone, status);
      }
    }
    if IsBlank(search) {
      FilterCongruent(ts, status, ShownBy(filter, search));
    } else {
      forall t: Task ensures ShownBy(filter, search)(t) == (status(t) && TitleIncludes(q)(t)) {
        TitleIncludesIffOccurs(q, t);
        assert ShownBy(filter, search)(t) == Shown(t, filter, search);
        assert status(t) == ((filter == Active ==> !t.completed) && (filter == Completed ==> t.completed));
      }
      FilterCompose(ts, status, TitleIncludes(q), ShownBy(filter, search));
    }
  }

  /** `filteredTasks` lists every shown task exactly as often as the collection holds it, and no other task. */
  lemma FilteredTasksAreShown(ts: seq<Task>, filter: FilterType, search: string)
    ensures forall t :: multiset(FilteredTasks(ts, filter, search))[t] == if Shown(t, filter, search) then multiset(ts)[t] else 0
  {
    var selection := BySearch(ByStatus(ts, filter), search);
    SelectionIsShown(ts, filter, search);
    SortSortsAndPermutes(selection);
    FilterMultiset(ts, ShownBy(filter, search));
    forall t ensures ShownBy(filter, search)(t) == Shown(t, filter, search) {
    }
  }

  /** `filteredTasks` is sorted by the comparator. */
  lemma FilteredTasksSorted(ts: seq<Task>, filter: FilterType, search: string)
    ensures IsSorted(FilteredTasks(ts, filter, search))
  {
    SortSortsAndPermutes(BySearch(ByStatus(ts, filter), search));
  }

  /** Tasks that tie under the comparator appear in `filteredTasks` in collection order. */
  lemma FilteredTasksStable(ts: seq<Task>, filter: FilterType, search: string, z: Task)
    ensures Filter(FilteredTasks(ts, filter, search), TiedWith(z)) == Filter(Filter(ts, ShownBy(filter, search)), TiedWith(z))
  {
    SelectionIsShown(ts, filter, search);
    SortIsStable(BySearch(ByStatus(ts, filter), search), z);
  }

  // ----- counts -----

  /** The filter-bar badges. */
  datatype Counts = Counts(all: nat, active: nat, completed: nat)

  /** `counts`, computed from the whole collection: the filter and the search play no part. */
  function CountsOf(ts: seq<Task>): Counts
  {
    Counts(|ts|, Count(ts, IsActive), Count(ts, IsDone))
  }

  /** Every task is either active or completed, so the two badges add up to the total. */
  lemma CountsAddUp(ts: seq<Task>)
    ensures CountsOf(ts).all == CountsOf(ts).active + CountsOf(ts).completed == |ts|
  {
    CountComplement(ts, IsActive, IsDone);
  }

  /** Sorting keeps the length. */
  lemma SortKeepsLength(s: seq<Task>)
    ensures |Sort(s)| == |s|
  {
    SortSortsAndPermutes(s);
    assert |multiset(Sort(s))| == |multiset(s)|;
  }

  /** With no search text the view lists as many tasks as the status filter keeps. */
  lemma UnsearchedViewLength(ts: seq<Task>, filter: FilterType, search: string)
    requires Trim(search) == []
    ensures |FilteredTasks(ts, filter, search)| == |ByStatus(ts, filter)|
  {
    SortKeepsLength(ByStatus(ts, filter));
  }

  /** The badge the filter bar shows beside each filter (`counts[key]`). */
  function Badge(c: Counts, key: FilterType): nat
  {
    match key
    case All => c.all
    case Active => c.active
    case Completed => c.completed
  }

  /** With no search text, each filter's badge counts exactly what that filter's view lists. */
  lemma BadgeMatchesView(ts: seq<Task>, filter: FilterType, search: string)
    requires Trim(search) == []
    ensures Badge(CountsOf(ts), filter) == |FilteredTasks(ts, filter, search)|
  {
    UnsearchedViewLength(ts, filter, search);
  }
}
