# Day-to-day task list: a verified model of its task store

This project models the core of a small single-user to-do application written in
TypeScript with React. At its centre is the task store, the `useTasks` hook. It holds:

- an ordered collection of tasks (id, title, completion flag, optional due date,
  category and creation time);
- an ordered registry of category labels;
- the current status filter and search text.

Its operations add, toggle, delete and edit tasks, and add and delete categories. Each
operation replaces a collection with one built by prepend, map or filter. The derived
view filters by status, searches titles case-insensitively and sorts with a four-key
comparator. The counts give all, active and completed totals.

Three pages compute figures from the same tasks:

- the statistics page: totals, completion rate, last seven days, per-category breakdown,
  streak and tallest bar;
- the calendar page: tasks grouped by due day, the selected day's tasks, the mark on each
  day, and month stepping;
- the categories page: the add-form guard, per-category counts, and which categories can
  be deleted.

Modules, one per file:

| file | module | models |
|---|---|---|
| `wrappers.dfy` | `Wrappers` | `Option`, for optional arguments and absent values |
| `seqs.dfy` | `Seqs` | `Array.prototype.filter`, counting, duplicate-freedom, subsequences, first occurrences |
| `text.dfy` | `Text` | `String.prototype.trim`, `toLowerCase` (ASCII letters), `includes` |
| `tasks.dfy` | `Tasks` | the `Task` record, `FilterType`, `DEFAULT_CATEGORIES`, the new collection each store operation builds, and what each preserves |
| `task_view.dfy` | `TaskView` | `filteredTasks` (status filter, search, stable sort by the comparator) and `counts` |
| `task_store.dfy` | `Store` | the hook's state as a class whose methods replace its fields |
| `stats.dfy` | `Stats` | `StatsPage.tsx`: summary, rate, `last7`, `maxDaily`, `byCategory` loop, `streak` loop |
| `calendar.dfy` | `Calendar` | `CalendarPage.tsx`: `tasksByDate` loop, `selectedTasks`, `hasTask`/`allDone`, `prevMonth`/`nextMonth` |
| `categories.dfy` | `Categories` | `CategoriesPage.tsx`: `handleAdd`, category cards, delete protection |

Representation choices:

- A due date is a day number (`Option<int>`). `None` covers both `null` and the empty
  string, which the pages treat as "no due date". Two "yyyy-MM-dd" keys are equal
  exactly when they name the same day, so a grouping key is a day number too.
- `createdAt` is the creation instant in milliseconds, which is what the comparator
  reads back through `new Date(...).getTime()`. Its calendar day is `createdAt / 86400000`.
- The new task's id and creation time are parameters. The store requires the id to be
  fresh (`IsFreshId`).
- The store's operations are functions on values (`Tasks.Added`, `Tasks.Toggled`, ...).
  The class `Store.TaskStore` states each method's new state as that function of the old
  state, and states that every mutator preserves `Valid()`: ids are unique, titles are
  trimmed and non-empty, and the registry has no duplicates.
- The sort is a stable insertion sort, because `Array.prototype.sort` is stable. It is
  proved sorted by the comparator, a permutation of its input, and order-preserving
  among tied tasks.
- The loops of the pages (`byCategory`, `streak`, `tasksByDate`) are methods with
  `while` loops. Each is proved against a reference definition: counts via `Filter`, and
  a grouping via a map comprehension.

The store does not reject a blank title. Neither `addTask` nor `editTask` checks the
trimmed title. The forms check it before calling (`src/components/TaskInput.tsx:15`,
`src/components/TaskItem.tsx:27`).
The model follows the code: a non-blank trimmed title is a precondition
of `Store.TaskStore.AddTask` and `Store.TaskStore.EditTask`, and of the lemmas showing
that the collection stays well formed.

## Model

| member | source | states |
|---|---|---|
| `Tasks.TrimmedIsTitle` | src/hooks/useTasks.ts:57 | a title that is not blank, once trimmed, is non-empty with no white space at either end |
| `Tasks.AddTaskPrepends` | src/hooks/useTasks.ts:54-64 | addTask grows the collection by one. The new task is first and every older task follows in order. The new task has the given id, the trimmed title, is incomplete, has the given due date and creation time, and has category "Personal" when none is given |
| `Tasks.AddTaskKeepsWellFormed` | src/hooks/useTasks.ts:54-64 | with a fresh id and a non-blank title, ids stay unique and every title stays trimmed and non-empty |
| `Tasks.ToggleFlipsMatches` | src/hooks/useTasks.ts:66-70 | toggleTask keeps the length and flips `completed` on exactly the tasks whose id matches. Nothing else about any task changes |
| `Tasks.ToggleTwice` | src/hooks/useTasks.ts:66-70 | toggling the same id twice restores the collection |
| `Tasks.ToggleAbsent` | src/hooks/useTasks.ts:66-70 | toggling an id no task has changes nothing |
| `Tasks.ToggleKeepsWellFormed` | src/hooks/useTasks.ts:66-70 | toggling keeps ids unique and titles trimmed |
| `Tasks.DeleteRemovesMatches` | src/hooks/useTasks.ts:72-74 | deleteTask keeps exactly the tasks with another id, each as often as before, in their original relative order |
| `Tasks.DeleteAbsent` | src/hooks/useTasks.ts:72-74 | deleting an id no task has changes nothing |
| `Tasks.DeleteIdempotent` | src/hooks/useTasks.ts:72-74 | deleting the same id twice is deleting it once |
| `Tasks.AddThenDelete` | src/hooks/useTasks.ts:63 | deleting a just-added task by its fresh id restores the collection |
| `Tasks.DeleteKeepsWellFormed` | src/hooks/useTasks.ts:72-74 | deleting keeps ids unique and titles trimmed |
| `Tasks.EditUpdatesMatches` | src/hooks/useTasks.ts:76-80 | editTask sets the trimmed title and the due date on matching tasks. It changes category only when one is supplied, never touches id, completed or createdAt, and leaves other tasks unchanged |
| `Tasks.EditKeepsWellFormed` | src/hooks/useTasks.ts:76-80 | editing with a non-blank title keeps ids unique and titles trimmed |
| `Tasks.AddCategoryAppends` | src/hooks/useTasks.ts:82-84 | addCategory appends an absent name at the end and returns a present name's registry unchanged |
| `Tasks.AddCategoryIdempotent` | src/hooks/useTasks.ts:82-84 | adding the same name twice is adding it once, and a duplicate-free registry stays duplicate-free |
| `Tasks.DeleteCategoryRemoves` | src/hooks/useTasks.ts:87 | deleteCategory removes every occurrence of the name, keeps the other labels in order, and keeps the registry duplicate-free |
| `Tasks.DeleteCategoryCascades` | src/hooks/useTasks.ts:88 | exactly the tasks filed under the deleted name move to "Personal"; nothing else changes and the count is kept |
| `Tasks.DeleteCategoryKeepsWellFormed` | src/hooks/useTasks.ts:88 | the cascade keeps ids unique and titles trimmed |
| `TaskView.CompareIsTotalPreorder` | src/hooks/useTasks.ts:101-107 | the comparator is total and transitive, its sign is antisymmetric, and ties are transitive, so it is a consistent sort order |
| `TaskView.InsertAddsOne` | src/hooks/useTasks.ts:101-107 | inserting a task adds exactly that task to the multiset |
| `TaskView.SortedCons` | src/hooks/useTasks.ts:101-107 | a sequence with a head is sorted iff the head precedes every later task and the rest is sorted |
| `TaskView.InsertKeepsPrecedesAll` | src/hooks/useTasks.ts:101-107 | a task that precedes all of a sequence and the inserted task precedes all of the result |
| `TaskView.InsertKeepsSorted` | src/hooks/useTasks.ts:101-107 | inserting into a sorted sequence keeps it sorted |
| `TaskView.SortSortsAndPermutes` | src/hooks/useTasks.ts:101-107 | the sorted view is sorted by the comparator and is a permutation of its input |
| `TaskView.InsertKeepsTiesInOrder` | src/hooks/useTasks.ts:101-107 | insertion places a task before the tasks it ties with |
| `TaskView.SortIsStable` | src/hooks/useTasks.ts:101-107 | tasks that tie keep their input order |
| `TaskView.SortedOrderRules` | src/hooks/useTasks.ts:101-107 | in the sorted view, incomplete tasks come first. Among tasks of one status, dated tasks come before undated ones, dated tasks are in ascending due order, and undated tasks are newest first |
| `TaskView.TitleIncludesIffOccurs` | src/hooks/useTasks.ts:99 | the title test holds iff the query occurs somewhere in the lowercased title |
| `TaskView.SelectionIsShown` | src/hooks/useTasks.ts:94-100 | status filter then search keeps exactly the tasks that are `Shown`. `Shown` means the status matches, and the search is blank or the lowercased untrimmed query occurs in the lowercased title. Input order is kept |
| `TaskView.FilteredTasksAreShown` | src/hooks/useTasks.ts:93-108 | filteredTasks holds each shown task exactly as often as the collection does, and no other task |
| `TaskView.FilteredTasksSorted` | src/hooks/useTasks.ts:101-107 | filteredTasks is sorted by the comparator |
| `TaskView.FilteredTasksStable` | src/hooks/useTasks.ts:93-108 | tasks that tie under the comparator appear in filteredTasks in the order the shown tasks have in the collection |
| `TaskView.CountsAddUp` | src/hooks/useTasks.ts:110-114 | all equals active plus completed equals the number of tasks |
| `TaskView.SortKeepsLength` | src/hooks/useTasks.ts:101 | sorting keeps the length |
| `TaskView.UnsearchedViewLength` | src/hooks/useTasks.ts:93-108 | with a blank search the view has as many tasks as the status filter keeps |
| `TaskView.BadgeMatchesView` | src/components/FilterBar.tsx:30 | with a blank search, each filter button's count equals the number of tasks its view shows |
| `Store.TaskStore.constructor` | src/hooks/useTasks.ts:46-49 | the store starts with the loaded tasks or none and the loaded registry or the defaults. The filter starts at "all" and the search is empty |
| `Store.TaskStore.AddTask` | src/hooks/useTasks.ts:54-64 | tasks become the old tasks with the new task prepended. Nothing else changes and `Valid()` is preserved |
| `Store.TaskStore.ToggleTask` | src/hooks/useTasks.ts:66-70 | tasks become the toggled collection. Nothing else changes and `Valid()` is preserved |
| `Store.TaskStore.DeleteTask` | src/hooks/useTasks.ts:72-74 | tasks lose the matching tasks. Nothing else changes and `Valid()` is preserved |
| `Store.TaskStore.EditTask` | src/hooks/useTasks.ts:76-80 | tasks become the edited collection. Nothing else changes and `Valid()` is preserved |
| `Store.TaskStore.AddCategory` | src/hooks/useTasks.ts:82-84 | the registry gains the name if absent. Nothing else changes and `Valid()` is preserved |
| `Store.TaskStore.DeleteCategory` | src/hooks/useTasks.ts:86-89 | the registry loses the name and its tasks move to "Personal". Filter and search are kept and `Valid()` is preserved |
| `Store.TaskStore.SetFilter` | src/hooks/useTasks.ts:47 | only the filter changes, and the counts stay the same |
| `Store.TaskStore.SetSearch` | src/hooks/useTasks.ts:48 | only the search text changes, and the counts stay the same |
| `Text.TrimStart` | src/hooks/useTasks.ts:57 | the result is a suffix of the input, the removed prefix is white space, and the result does not start with white space |
| `Text.TrimEnd` | src/hooks/useTasks.ts:57 | the result is a prefix of the input, the removed suffix is white space, and the result does not end with white space |
| `Text.TrimIsInnerSlice` | src/hooks/useTasks.ts:57 | a trimmed string is a slice of the original with no white space at either end |
| `Text.TrimEmptyIffBlank` | src/hooks/useTasks.ts:97 | trimming yields the empty string iff the string is all white space |
| `Text.TrimIdempotent` | src/hooks/useTasks.ts:57 | trimming twice is trimming once |
| `Text.ToLowerIsLower` | src/hooks/useTasks.ts:98 | lowercasing keeps the length, maps each character, leaves no uppercase letter, and is idempotent |
| `Text.IncludesIffOccurs` | src/hooks/useTasks.ts:99 | `includes` holds iff the query occurs at some position |
| `Stats.RateBounds` | src/pages/StatsPage.tsx:15 | the rate lies in 0..100. It is 0 with no tasks or none completed and 100 when all are completed. Otherwise it is the whole number nearest to 100·completed/total, halves up |
| `Stats.SummaryIsConsistent` | src/pages/StatsPage.tsx:12-15 | completed is at most total, which is the number of tasks. Active is total minus completed, and is the number of incomplete tasks. The rate is a percentage |
| `Stats.Last7Shape` | src/pages/StatsPage.tsx:19-24 | seven entries for the days from six days ago to today, in order. Each day has no more completed than created tasks |
| `Stats.MaxDaily` | src/pages/StatsPage.tsx:48 | the tallest bar is at least 1 and at least every day's total, and is 1 or some day's total |
| `Stats.SumTalliesUpdate` | src/pages/StatsPage.tsx:31-33 | changing one entry's tally changes the sum of the entries by the difference |
| `Stats.TallyStep` | src/pages/StatsPage.tsx:28-33 | reading one more task keeps the breakdown correct. Its label is appended if new, and its entry is bumped |
| `Stats.TalliesAreTallied` | src/pages/StatsPage.tsx:28-33 | the breakdown built task by task has one entry per label, in order of first occurrence. Each entry counts that label's tasks and completed tasks, and the entries add up to all tasks and all completed tasks |
| `Stats.TalliesMeaning` | src/pages/StatsPage.tsx:27-34 | as above, and each entry's completed count is at most its total |
| `Stats.ByCategory` | src/pages/StatsPage.tsx:27-34 | the loop's map has one entry per label (the category, or "Personal" for an empty one), in order of first occurrence. Each entry counts exactly the tasks filed under it and the completed ones among them, with completed at most total. Totals sum to the number of tasks and completed counts sum to the number completed |
| `Stats.Streak` | src/pages/StatsPage.tsx:37-43 | the streak is at most 30, and every day back from today within it has a completed task created that day. Below 30, the first day outside it has none |
| `Calendar.DueDaysSnoc` | src/pages/CalendarPage.tsx:25-27 | reading one more task adds its due day, if it has one, to the keys |
| `Calendar.GroupedSnocUndated` | src/pages/CalendarPage.tsx:25 | a task without a due date changes no list |
| `Calendar.GroupedSnocDated` | src/pages/CalendarPage.tsx:25-28 | a dated task is pushed at the end of its day's list, which is created empty if absent |
| `Calendar.GroupingIsGrouped` | src/pages/CalendarPage.tsx:24-29 | building the map one task at a time, creating a day's list on first use and pushing onto it, gives the reference grouping |
| `Calendar.TasksByDate` | src/pages/CalendarPage.tsx:22-32 | the map's keys are exactly the due days, and each list holds exactly the tasks due that day, in input order |
| `Calendar.GroupedListsHoldTheirDay` | src/pages/CalendarPage.tsx:24-30 | every task listed under a day is due that day, so undated tasks appear nowhere, and each list keeps the input order |
| `Calendar.GroupedListsEachTaskOnce` | src/pages/CalendarPage.tsx:24-29 | each dated task is listed under its own day as often as it occurs in the input, and under no other day |
| `Calendar.SelectedTasksAreDue` | src/pages/CalendarPage.tsx:36-40 | with no day selected the list is empty. Otherwise it is exactly the tasks due that day, which is empty for a day without tasks |
| `Calendar.MarkOfMeaning` | src/pages/CalendarPage.tsx:77-79 | a day has a task iff some task is due that day. All its tasks are done iff moreover every task due that day is completed |
| `Calendar.FirstOf` | src/pages/CalendarPage.tsx:42-43 | the date built is day 1 of a month in 0..11, and month overflow carries into the year |
| `Calendar.MonthIndexDetermines` | src/pages/CalendarPage.tsx:42-43 | year and month in range are determined by the month count 12·year + month |
| `Calendar.MonthStepping` | src/pages/CalendarPage.tsx:42-43 | next and previous month are day 1 of the adjacent month, rolling the year over between December and January. Stepping back after forward, or forward after back, returns to day 1 of the starting month |
| `Categories.HandleAddGuard` | src/pages/CategoriesPage.tsx:15-21 | the form adds exactly when the input is not blank and its trimmed text is not registered. It adds the trimmed text, which has no surrounding white space, and clears the field. Otherwise the field keeps its text |
| `Categories.SubmitAppendsOrKeeps` | src/pages/CategoriesPage.tsx:17-18 | submitting appends the trimmed input to the registry or leaves it unchanged, and keeps it duplicate-free |
| `Categories.SecondSubmitAddsNothing` | src/pages/CategoriesPage.tsx:17 | submitting the same text again adds nothing |
| `Categories.CardMeaning` | src/pages/CategoriesPage.tsx:51-53 | a card lists exactly the tasks filed under its category ("Personal" for an empty one), in input order. Its completed count is the number of completed tasks filed there, at most its total |
| `Categories.CardAgreesWithStats` | src/pages/CategoriesPage.tsx:51-53 | a card shows the same total and completed count as the statistics breakdown for that category |
| `Categories.DefaultsAreProtected` | src/pages/CategoriesPage.tsx:73 | the names without a delete button are exactly the default categories, so deleting from the page keeps every default category that is registered |

## Left out

- Persistence: `loadTasks`, `saveTasks`, `loadCategories`, `saveCategories` and the effects that save after every change (src/hooks/useTasks.ts:19-43, 51-52). This is browser storage and JSON. The constructor takes the loaded collections as optional values and falls back to no tasks and the default categories.
- The settings page: browser storage, confirmation dialogs, reloads and timers.
- `crypto.randomUUID()` and `new Date().toISOString()`: the id and the creation instant are parameters of `Store.TaskStore.AddTask`.
- Date parsing and formatting by date-fns and `Date`: due dates are day numbers and days are counted in UTC, so the local time-zone offset is not modelled. Invalid dates (NaN comparisons) are not modelled either.
- The month grid (`startOfMonth`, `endOfMonth`, `eachDayOfInterval`, `getDay`) and `isToday`: these are date-library calls.
- `Calendar.FirstOf`: does not model the `Date` constructor mapping years 0 to 99 to 1900 to 1999, since the page only steps from the current date.
- `Stats.RateBounds`: the rate is computed exactly in rational arithmetic. Floating-point rounding of `completed / total * 100` before `Math.round` is not modelled, so the two can differ: for 23 completed of 40 tasks the quotient times 100 is 57.49999999999999 in doubles and the page shows 57, while `Rate(23, 40)` is 58.
- Bar heights and progress-bar widths: floating-point display arithmetic.
- `Text.ToLowerIsLower`: lowercasing covers ASCII letters only; Unicode case mapping is not modelled.
- Strings are sequences of Unicode scalar values, whereas JavaScript strings are UTF-16 code units, so a string holding a lone surrogate cannot be represented; `trim` and `includes` agree with the model on well-formed strings.
- React mechanics (`useState`, `useMemo`, `useCallback`, re-rendering, refs and focus) and the delete animation timer.
- Presentation components (layout, task item, task input, search bar, filter bar, empty state): their only logic is the caller-side title guard, which is a precondition here, and the filter badge, which is `TaskView.Badge`.
- `Stats.ByCategory`: the source updates the entry object it fetched from the map. The model writes a new tally into the map instead, because the entry objects are never shared outside the map.
