/**
 * The categories page's computations (src/pages/CategoriesPage.tsx): the guard
 * on the add form, the task counts shown on each category's card, and which
 * categories offer a delete button.
 */
module Categories {
  import opened Wrappers
  import opened Seqs
  import opened Text
  import opened Tasks
  import Stats

  // ----- the add form -----

  /** What submitting the add form does: the name handed to `onAddCategory`, if any, and the input field afterwards. */
  datatype AddOutcome = AddOutcome(added: Option<string>, input: string)

  /** `handleAdd`: add the trimmed input unless it is empty or already registered, and clear the field after adding. */
  function HandleAdd(input: string, categories: seq<string>): AddOutcome
  {
    if Trim(input) != [] && Trim(input) !in categories then AddOutcome(Some(Trim(input)), "")
    else AddOutcome(None, input)
  }

  /** The registry after submitting the form: `addCategory` runs only when the guard lets the name through. */
  function AfterSubmit(input: string, categories: seq<string>): seq<string>
  {
    match HandleAdd(input, categories).added
    case None => categories
    case Some(name) => WithCategory(categories, name)
  }

  /**
   * The form adds a name exactly when the input is not blank and its trimmed text
   * is not registered yet; the name added is that trimmed text, a non-blank label
   * without surrounding white space, and the field is cleared. When nothing is
   * added the field keeps what was typed.
   */
  lemma HandleAddGuard(input: string, categories: seq<string>)
    ensures HandleAdd(input, categories).added.Some? <==> !IsBlank(input) && Trim(input) !in categories
    ensures HandleAdd(input, categories).added.Some? ==>
      && HandleAdd(input, categories).added.value == Trim(input)
      && IsTitle(HandleAdd(input, categories).added.value)
      && HandleAdd(input, categories).input == ""
    ensures HandleAdd(input, categories).added.None? ==> HandleAdd(input, categories).input == input
  {
    TrimEmptyIffBlank(input);
    if Trim(input) != [] {
      TrimmedIsTitle(input);
    }
  }

  /**
   * Submitting either appends the trimmed input to the registry or leaves the
   * registry as it was, and a registry without duplicates stays without them.
   */
  lemma SubmitAppendsOrKeeps(input: string, categories: seq<string>)
    ensures HandleAdd(input, categories).added.Some? ==> AfterSubmit(input, categories) == categories + [Trim(input)]
    ensures HandleAdd(input, categories).added.None? ==> AfterSubmit(input, categories) == categories
    ensures Distinct(categories) ==> Distinct(AfterSubmit(input, categories))
  {
    if HandleAdd(input, categories).added.Some? {
      AddCategoryAppends(categories, Trim(input));
      AddCategoryIdempotent(categories, Trim(input));
    }
  }

  /** Submitting the same text a second time adds nothing: the name is registered by then. */
  lemma SecondSubmitAddsNothing(input: string, categories: seq<string>)
    ensures HandleAdd(input, AfterSubmit(input, categories)).added.None?
    ensures AfterSubmit(input, AfterSubmit(input, categories)) == AfterSubmit(input, categories)
  {
    if Trim(input) != [] && Trim(input) !in categories {
      AddCategoryAppends(categories, Trim(input));
    }
  }

  // ----- the category cards -----

  /** A category's card: its tasks, how many of them are completed, and how many there are. */
  datatype CategoryCard = CategoryCard(catTasks: seq<Task>, completed: nat, total: nat)

  /** `catTasks`, `completed` and `total` for `category`. */
  function CardOf(ts: seq<Task>, category: string): CategoryCard
  {
    var catTasks := Filter(ts, InCategory(category));
    CategoryCard(catTasks, Count(catTasks, IsDone), |catTasks|)
  }

  /**
   * A card lists exactly the tasks filed under its category (a task with an empty
   * category under "Personal"), in input order; its completed count is the number
   * of completed tasks filed there, never more than its total.
   */
  lemma CardMeaning(ts: seq<Task>, category: string)
    ensures forall t :: t in CardOf(ts, category).catTasks <==> t in ts && CategoryOf(t) == category
    ensures IsSubsequence(CardOf(ts, category).catTasks, ts)
    ensures CardOf(ts, category).completed == Count(ts, CompletedIn(category))
    ensures CardOf(ts, category).completed <= CardOf(ts, category).total
  {
    var catTasks := Filter(ts, InCategory(category));
    FilterMembers(ts, InCategory(category));
    FilterIsSubsequence(ts, InCategory(category));
    assert forall x :: CompletedIn(category)(x) == (InCategory(category)(x) && IsDone(x));
    FilterCompose(ts, InCategory(category), IsDone, CompletedIn(category));
  }

  /** A card shows the same figures as the statistics page's breakdown for that category. */
  lemma CardAgreesWithStats(ts: seq<Task>, category: string)
    requires category in Stats.Tallies(ts).tallies
    ensures Stats.Tally(CardOf(ts, category).total, CardOf(ts, category).completed) == Stats.Tallies(ts).tallies[category]
  {
    CardMeaning(ts, category);
    Stats.TalliesMeaning(ts);
  }

  // ----- delete protection -----

  /** Whether the card offers deleting `category`: only a category outside the four built-in ones. */
  predicate Deletable(category: string)
  {
    category !in ["Personal", "Work", "Study", "Health"]
  }

  /**
   * The protected names are exactly the default categories, so deleting through
   * the page never removes a default category from the registry.
   */
  lemma DefaultsAreProtected(categories: seq<string>, category: string)
    ensures Deletable(category) <==> category !in DefaultCategories
    ensures Deletable(category) ==> forall d :: d in DefaultCategories && d in categories ==> d in WithoutCategory(categories, category)
  {
    FilterMembers(categories, IsOtherThan(category));
  }
}
