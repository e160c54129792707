/**
 * The task record and the pure updaters that the store's operations hand to
 * `setTasks`/`setCategories` (src/hooks/useTasks.ts). Each updater builds the
 * next collection from the previous one by a prepend, a map or a filter.
 */
module Tasks {
  import opened Wrappers
  import opened Seqs
  import opened Text

  /**
   * A calendar day, counted in days. A due date is a date-only "yyyy-MM-dd"
   * string in the source; two of them are equal, and compare, as their days do.
   */
  type Day = int

  /**
   * A task. `dueDate` is None for `null` (and for the empty string, which the
   * source treats as "no date" wherever it tests the field). `createdAt` is the
   * creation instant in milliseconds since the epoch.
   */
  datatype Task = Task(
    id: string,
    title: string,
    completed: bool,
    dueDate: Option<Day>,
    category: string,
    createdAt: int)

  /** Which tasks the list shows. */
  datatype FilterType = All | Active | Completed

  /** The label a task falls back to, and the label a deleted category's tasks move to. */
  const Personal: string := "Personal"

  /** The categories a first run starts with. */
  const DefaultCategories: seq<string> := ["Personal", "Work", "Study", "Health"]

  /** A title the store may hold: not empty, and neither starting nor ending with white space. */
  predicate IsTitle(s: string)
  {
    s != [] && !IsSpace(s[0]) && !IsSpace(s[|s| - 1])
  }

  /**
   * The invariant the callers of the store keep: ids are unique and every
   * title is trimmed and non-empty.
   */
  predicate WellFormed(ts: seq<Task>)
  {
    && DistinctBy(ts, IdOf)
    && forall i :: 0 <= i < |ts| ==> IsTitle(ts[i].title)
  }

  function IdOf(t: Task): string { t.id }

  /** Trimming a title that is not blank gives a title the store may hold. */
  lemma TrimmedIsTitle(s: string)
    requires Trim(s) != []
    ensures IsTitle(Trim(s))
  {
    TrimIsInnerSlice(s);
  }

  /** No task carries the id `id` (a freshly generated id). */
  predicate IsFreshId(ts: seq<Task>, id: string)
  {
    forall i :: 0 <= i < |ts| ==> ts[i].id != id
  }

  predicate IsActive(t: Task) { !t.completed }

  predicate IsDone(t: Task) { t.completed }

  /** The predicate `t => t.id !== id`. */
  function HasOtherId(id: string): Task -> bool
  {
    (t: Task) => t.id != id
  }

  /** The predicate `c => c !== name`. */
  function IsOtherThan(name: string): string -> bool
  {
    (c: string) => c != name
  }

  // ----- addTask -----

  /** The record `addTask(title, dueDate, category)` creates, given its id and creation time. */
  function NewTask(id: string, title: string, dueDate: Option<Day>, category: Option<string>, createdAt: int): Task
  {
    Task(id, Trim(title), false, dueDate, category.GetOr(Personal), createdAt)
  }

  /** `[task, ...prev]`. */
  function Added(ts: seq<Task>, t: Task): seq<Task>
  {
    [t] + ts
  }

  // ----- toggleTask -----

  function Flip(t: Task, id: string): Task
  {
    if t.id == id then t.(completed := !t.completed) else t
  }

  /** `toggleTask`: flips `completed` on each task whose id matches and keeps every other task as it was. */
  function Toggled(ts: seq<Task>, id: string): seq<Task>
  {
    seq(|ts|, i requires 0 <= i < |ts| => Flip(ts[i], id))
  }

  // ----- deleteTask -----

  /** `prev.filter(t => t.id !== id)`. */
  function Deleted(ts: seq<Task>, id: string): seq<Task>
  {
    Filter(ts, HasOtherId(id))
  }

  // ----- editTask -----

  function Edit(t: Task, id: string, title: string, dueDate: Option<Day>, category: Option<string>): Task
  {
    if t.id == id then t.(title := Trim(title), dueDate := dueDate, category := category.GetOr(t.category))
    else t
  }

  /**
   * `editTask`: each task whose id matches becomes a copy with the trimmed title, the
   * given due date and, when one is supplied, the given category; the others are kept.
   */
  function Edited(ts: seq<Task>, id: string, title: string, dueDate: Option<Day>, category: Option<string>): seq<Task>
  {
    seq(|ts|, i requires 0 <= i < |ts| => Edit(ts[i], id, title, dueDate, category))
  }

  // ----- addCategory -----

  /** `addCategory`: appends the name unless the registry already holds it. */
  function WithCategory(cats: seq<string>, name: string): seq<string>
  {
    if name in cats then cats else cats + [name]
  }

  // ----- deleteCategory -----

  /** `prev.filter(c => c !== name)`. */
  function WithoutCategory(cats: seq<string>, name: string): seq<string>
  {
    Filter(cats, IsOtherThan(name))
  }

  function Reassign(t: Task, name: string): Task
  {
    if t.category == name then t.(category := Personal) else t
  }

  /** The cascade of `deleteCategory`: each task filed under the name moves to "Personal". */
  function Reassigned(ts: seq<Task>, name: string): seq<Task>
  {
    seq(|ts|, i requires 0 <= i < |ts| => Reassign(ts[i], name))
  }

  /** The label the pages show a task under: its category, or "Personal" when that is empty (`t.category || "Personal"`). */
  function CategoryOf(t: Task): string
  {
    if t.category == "" then Personal else t.category
  }

  /** The predicate `t => (t.category || "Personal") === category`. */
  function InCategory(category: string): Task -> bool
  {
    (t: Task) => CategoryOf(t) == category
  }

  /** The completed tasks of `InCategory(category)`. */
  function CompletedIn(category: string): Task -> bool
  {
    (t: Task) => t.completed && CategoryOf(t) == category
  }

  // ===== Properties =====

  /**
   * addTask puts the new task at the front, keeps every older task in order
   * behind it, and the new task is incomplete with a trimmed title and the
   * "Personal" category when none is given.
   */
  lemma AddTaskPrepends(ts: seq<Task>, id: string, title: string, dueDate: Option<Day>, category: Option<string>, createdAt: int)
    ensures var r := Added(ts, NewTask(id, title, dueDate, category, createdAt));
      && |r| == |ts| + 1
      && r[1..] == ts
      && r[0].id == id && r[0].title == Trim(title) && !r[0].completed
      && r[0].dueDate == dueDate && r[0].createdAt == createdAt
      && (category.None? ==> r[0].category == Personal)
      && (category.Some? ==> r[0].category == category.value)
  {
  }

  /** With a fresh id and a title that is not blank, addTask keeps the collection well formed. */
  lemma AddTaskKeepsWellFormed(ts: seq<Task>, id: string, title: string, dueDate: Option<Day>, category: Option<string>, createdAt: int)
    requires WellFormed(ts)
    requires IsFreshId(ts, id)
    requires Trim(title) != []
    ensures WellFormed(Added(ts, NewTask(id, title, dueDate, category, createdAt)))
  {
    TrimmedIsTitle(title);
    var r := Added(ts, NewTask(id, title, dueDate, category, createdAt));
    forall i, j | 0 <= i < j < |r| ensures IdOf(r[i]) != IdOf(r[j]) {
      assert r[j] == ts[j - 1];
      if i > 0 {
        assert r[i] == ts[i - 1];
      }
    }
    forall i | 0 <= i < |r| ensures IsTitle(r[i].title) {
      if i > 0 {
        assert r[i] == ts[i - 1];
      }
    }
  }

  /**
   * toggleTask keeps the length, flips `completed` on exactly the tasks whose id
   * matches, and changes nothing else about any task.
   */
  lemma ToggleFlipsMatches(ts: seq<Task>, id: string)
    ensures |Toggled(ts, id)| == |ts|
    ensures forall i :: 0 <= i < |ts| ==>
      && Toggled(ts, id)[i].completed == (if ts[i].id == id then !ts[i].completed else ts[i].completed)
      && Toggled(ts, id)[i].(completed := ts[i].completed) == ts[i]
  {
  }

  /** Toggling the same id twice restores the original collection. */
  lemma ToggleTwice(ts: seq<Task>, id: string)
    ensures Toggled(Toggled(ts, id), id) == ts
  {
  }

  /** Toggling an id that no task carries changes nothing. */
  lemma ToggleAbsent(ts: seq<Task>, id: string)
    requires IsFreshId(ts, id)
    ensures Toggled(ts, id) == ts
  {
  }

  /** toggleTask keeps the collection well formed. */
  lemma ToggleKeepsWellFormed(ts: seq<Task>, id: string)
    requires WellFormed(ts)
    ensures WellFormed(Toggled(ts, id))
  {
  }

  /**
   * deleteTask keeps, in their original relative order, exactly the tasks whose
   * id differs, each as often as before, and removes every task with that id.
   */
  lemma DeleteRemovesMatches(ts: seq<Task>, id: string)
    ensures forall t :: t in Deleted(ts, id) <==> t in ts && t.id != id
    ensures forall t :: multiset(Deleted(ts, id))[t] == if t.id != id then multiset(ts)[t] else 0
    ensures IsSubsequence(Deleted(ts, id), ts)
  {
    FilterMembers(ts, HasOtherId(id));
    FilterMultiset(ts, HasOtherId(id));
    FilterIsSubsequence(ts, HasOtherId(id));
  }

  /** Deleting an id that no task carries changes nothing. */
  lemma DeleteAbsent(ts: seq<Task>, id: string)
    requires IsFreshId(ts, id)
    ensures Deleted(ts, id) == ts
  {
    FilterKeepsAll(ts, HasOtherId(id));
  }

  /** Deleting twice is deleting once. */
  lemma DeleteIdempotent(ts: seq<Task>, id: string)
    ensures Deleted(Deleted(ts, id), id) == Deleted(ts, id)
  {
    FilterIdempotent(ts, HasOtherId(id));
  }

  /** Adding a task with a fresh id and then deleting that id restores the collection. */
  lemma AddThenDelete(ts: seq<Task>, t: Task)
    requires IsFreshId(ts, t.id)
    ensures Deleted(Added(ts, t), t.id) == ts
  {
    assert Added(ts, t)[1..] == ts;
    DeleteAbsent(ts, t.id);
  }

  /** deleteTask keeps the collection well formed. */
  lemma DeleteKeepsWellFormed(ts: seq<Task>, id: string)
    requires WellFormed(ts)
    ensures WellFormed(Deleted(ts, id))
  {
    FilterDistinctBy(ts, HasOtherId(id), IdOf);
    FilterMembers(ts, HasOtherId(id));
    var r := Deleted(ts, id);
    forall i | 0 <= i < |r| ensures IsTitle(r[i].title) {
      assert r[i] in ts;
    }
  }

  /**
   * editTask sets the trimmed title and the given due date on the tasks whose id
   * matches, changes their category only when one is supplied, never touches
   * id, completed or createdAt, and leaves every other task as it was.
   */
  lemma EditUpdatesMatches(ts: seq<Task>, id: string, title: string, dueDate: Option<Day>, category: Option<string>)
    ensures |Edited(ts, id, title, dueDate, category)| == |ts|
    ensures forall i :: 0 <= i < |ts| ==>
      var e := Edited(ts, id, title, dueDate, category)[i];
      && e.id == ts[i].id && e.completed == ts[i].completed && e.createdAt == ts[i].createdAt
      && (ts[i].id == id ==> e.title == Trim(title) && e.dueDate == dueDate)
      && (ts[i].id == id && category.Some? ==> e.category == category.value)
      && (category.None? ==> e.category == ts[i].category)
      && (ts[i].id != id ==> e == ts[i])
  {
  }

  /** With a title that is not blank, editTask keeps the collection well formed. */
  lemma EditKeepsWellFormed(ts: seq<Task>, id: string, title: string, dueDate: Option<Day>, category: Option<string>)
    requires WellFormed(ts)
    requires Trim(title) != []
    ensures WellFormed(Edited(ts, id, title, dueDate, category))
  {
    TrimmedIsTitle(title);
    var r := Edited(ts, id, title, dueDate, category);
    forall i | 0 <= i < |r| ensures IsTitle(r[i].title) {
      assert r[i].title == if ts[i].id == id then Trim(title) else ts[i].title;
    }
    forall i, j | 0 <= i < j < |r| ensures IdOf(r[i]) != IdOf(r[j]) {
      assert r[i] == Edit(ts[i], id, title, dueDate, category);
      assert r[j] == Edit(ts[j], id, title, dueDate, category);
      assert IdOf(ts[i]) != IdOf(ts[j]);
    }
  }

  /** addCategory appends a new name at the end and leaves a present one alone. */
  lemma AddCategoryAppends(cats: seq<string>, name: string)
    ensures name in WithCategory(cats, name)
    ensures name in cats ==> WithCategory(cats, name) == cats
    ensures name !in cats ==> WithCategory(cats, name) == cats + [name]
  {
  }

  /** addCategory is idempotent and keeps the registry free of duplicates. */
  lemma AddCategoryIdempotent(cats: seq<string>, name: string)
    ensures WithCategory(WithCategory(cats, name), name) == WithCategory(cats, name)
    ensures Distinct(cats) ==> Distinct(WithCategory(cats, name))
  {
  }

  /**
   * deleteCategory removes every occurrence of the name, keeps the other labels
   * in order, and keeps the registry free of duplicates.
   */
  lemma DeleteCategoryRemoves(cats: seq<string>, name: string)
    ensures name !in WithoutCategory(cats, name)
    ensures forall c :: c in WithoutCategory(cats, name) <==> c in cats && c != name
    ensures IsSubsequence(WithoutCategory(cats, name), cats)
    ensures Distinct(cats) ==> Distinct(WithoutCategory(cats, name))
  {
    FilterMembers(cats, IsOtherThan(name));
    FilterIsSubsequence(cats, IsOtherThan(name));
    if Distinct(cats) {
      FilterDistinct(cats, IsOtherThan(name));
    }
  }

  /**
   * deleteCategory's cascade moves exactly the tasks filed under the deleted
   * name to "Personal", keeps the number of tasks, and changes nothing else.
   */
  lemma DeleteCategoryCascades(ts: seq<Task>, name: string)
    ensures |Reassigned(ts, name)| == |ts|
    ensures forall i :: 0 <= i < |ts| ==>
      && (ts[i].category == name ==> Reassigned(ts, name)[i] == ts[i].(category := Personal))
      && (ts[i].category != name ==> Reassigned(ts, name)[i] == ts[i])
    ensures name != Personal ==> forall t :: t in Reassigned(ts, name) ==> t.category != name
  {
  }

  /** The cascade keeps the collection well formed. */
  lemma DeleteCategoryKeepsWellFormed(ts: seq<Task>, name: string)
    requires WellFormed(ts)
    ensures WellFormed(Reassigned(ts, name))
  {
  }
}
