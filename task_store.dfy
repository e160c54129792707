/**
 * The state `useTasks` (src/hooks/useTasks.ts) keeps for a session, as one
 * object: the task collection, the category registry and the two view
 * parameters. Each operation replaces a collection with the value its pure
 * updater (module Tasks) builds from the previous one.
 */
module Store {
  import opened Wrappers
  import opened Seqs
  import opened Text
  import opened Tasks
  import opened TaskView

  class TaskStore {
    var tasks: seq<Task>
    var categories: seq<string>
    var filter: FilterType
    var search: string

    /** What the callers keep true: unique ids, trimmed non-empty titles, no repeated category. */
    ghost predicate Valid()
      reads this
    {
      WellFormed(tasks) && Distinct(categories)
    }

    /** The list the page shows (`tasks` as returned by the hook). */
    function Visible(): seq<Task>
      reads this
    {
      FilteredTasks(tasks, filter, search)
    }

    /** The filter-bar badges (`counts`). */
    function TaskCounts(): Counts
      reads this
    {
      CountsOf(tasks)
    }

    /**
     * Opens the store on what storage held. Each argument is the parsed stored
     * value, or None when the key is absent, holds the empty string or does not
     * parse; the tasks then start empty and the registry at the defaults.
     */
    constructor (storedTasks: Option<seq<Task>>, storedCategories: Option<seq<string>>)
      ensures tasks == storedTasks.GetOr([])
      ensures categories == storedCategories.GetOr(DefaultCategories)
      ensures filter == All && search == ""
      ensures (storedTasks.None? || WellFormed(storedTasks.value)) && (storedCategories.None? || Distinct(storedCategories.value)) ==> Valid()
    {
      tasks := storedTasks.GetOr([]);
      categories := storedCategories.GetOr(DefaultCategories);
      filter := All;
      search := "";
    }

    /**
     * `addTask(title, dueDate, category)`, given the id `crypto.randomUUID()`
     * returned and the instant `new Date()` read. The callers only submit a title
     * that is not blank.
     */
    method AddTask(id: string, createdAt: int, title: string, dueDate: Option<Day>, category: Option<string>)
      requires Trim(title) != []
      requires IsFreshId(tasks, id)
      modifies this
      ensures tasks == Added(old(tasks), NewTask(id, title, dueDate, category, createdAt))
      ensures categories == old(categories) && filter == old(filter) && search == old(search)
      ensures old(Valid()) ==> Valid()
    {
      if Valid() {
        AddTaskKeepsWellFormed(tasks, id, title, dueDate, category, createdAt);
      }
      tasks := Added(tasks, NewTask(id, title, dueDate, category, createdAt));
    }

    /** `toggleTask(id)`. */
    method ToggleTask(id: string)
      modifies this
      ensures tasks == Toggled(old(tasks), id)
      ensures categories == old(categories) && filter == old(filter) && search == old(search)
      ensures old(Valid()) ==> Valid()
    {
      if Valid() {
        ToggleKeepsWellFormed(tasks, id);
      }
      tasks := Toggled(tasks, id);
    }

    /** `deleteTask(id)`. */
    method DeleteTask(id: string)
      modifies this
      ensures tasks == Deleted(old(tasks), id)
      ensures categories == old(categories) && filter == old(filter) && search == old(search)
      ensures old(Valid()) ==> Valid()
    {
      if Valid() {
        DeleteKeepsWellFormed(tasks, id);
      }
      tasks := Deleted(tasks, id);
    }

    /**
     * `editTask(id, title, dueDate, category)`; `category` is None when the
     * argument is left out. The callers only save a title that is not blank.
     */
    method EditTask(id: string, title: string, dueDate: Option<Day>, category: Option<string>)
      requires Trim(title) != []
      modifies this
      ensures tasks == Edited(old(tasks), id, title, dueDate, category)
      ensures categories == old(categories) && filter == old(filter) && search == old(search)
      ensures old(Valid()) ==> Valid()
    {
      if Valid() {
        EditKeepsWellFormed(tasks, id, title, dueDate, category);
      }
      tasks := Edited(tasks, id, title, dueDate, category);
    }

    /** `addCategory(name)`. */
    method AddCategory(name: string)
      modifies this
      ensures categories == WithCategory(old(categories), name)
      ensures tasks == old(tasks) && filter == old(filter) && search == old(search)
      ensures old(Valid()) ==> Valid()
    {
      AddCategoryIdempotent(categories, name);
      categories := WithCategory(categories, name);
    }

    /** `deleteCategory(name)`: the registry and the tasks change together. */
    method DeleteCategory(name: string)
      modifies this
      ensures categories == WithoutCategory(old(categories), name)
      ensures tasks == Reassigned(old(tasks), name)
      ensures filter == old(filter) && search == old(search)
      ensures old(Valid()) ==> Valid()
    {
      DeleteCategoryRemoves(categories, name);
      if Valid() {
        DeleteCategoryKeepsWellFormed(tasks, name);
      }
      categories := WithoutCategory(categories, name);
      tasks := Reassigned(tasks, name);
    }

    /** `setFilter(f)`: only the view changes; the badges do not. */
    method SetFilter(f: FilterType)
      modifies this
      ensures filter == f
      ensures tasks == old(tasks) && categories == old(categories) && search == old(search)
      ensures TaskCounts() == old(TaskCounts())
    {
      filter := f;
    }

    /** `setSearch(s)`: only the view changes; the badges do not. */
    method SetSearch(s: string)
      modifies this
      ensures search == s
      ensures tasks == old(tasks) && categories == old(categories) && filter == old(filter)
      ensures TaskCounts() == old(TaskCounts())
    {
      search := s;
    }
  }
}
