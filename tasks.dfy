/** The in-memory list of tasks kept by the page of web-project/scripts/main.js:
    adding, toggling, deleting and editing tasks, the filter applied before
    rendering, the three sort modes, and the statistics. Clocks, ids, string
    trimming, lower-casing and locale collation come in as parameters. */
module TaskBoard {
  import opened Common

  /** The priority select's three options: 高 (high), 中 (medium), 低 (low). */
  datatype Priority = High | Medium | Low

  /** A task record; `createdAt` is the creation instant as an abstract integer. */
  datatype Task = Task(id: string, text: string, category: string, priority: Priority,
                       completed: bool, createdAt: int, description: string)

  /** The weights `sortTasks` gives the priorities: 高 3, 中 2, 低 1. */
  function Rank(p: Priority): int {
    match p
    case High => 3
    case Medium => 2
    case Low => 1
  }

  function HasId(id: string): Task -> bool {
    (t: Task) => t.id == id
  }

  function OtherId(id: string): Task -> bool {
    Not(HasId(id))
  }

  function IsCompleted(t: Task): bool {
    t.completed
  }

  /** Every task has a non-empty text: what adding a task guarantees for the list. */
  predicate NonEmptyTexts(tasks: seq<Task>) {
    forall i :: 0 <= i < |tasks| ==> tasks[i].text != ""
  }

  // ---------------------------------------------------------------------------
  // The filter of `renderTasks`

  /** `s.includes(sub)`: sub occurs in s at some offset. */
  predicate Contains(s: string, sub: string) {
    exists i :: 0 <= i <= |s| - |sub| && OccursAt(s, sub, i)
  }

  predicate OccursAt(s: string, sub: string, i: int)
    requires 0 <= i <= |s| - |sub|
  {
    s[i..i + |sub|] == sub
  }

  /** The filter predicate of `renderTasks`; `term` is the lower-cased, trimmed
      search text and `lower` is `toLowerCase`. */
  predicate Shown(t: Task, filter: string, category: string, term: string, lower: string -> string) {
    !(filter == "active" && t.completed) &&
    !(filter == "completed" && !t.completed) &&
    (category == "all" || t.category == category) &&
    (term == "" || Contains(lower(t.text), term))
  }

  /** What `renderTasks` keeps: a task is kept exactly when it passes the
      status filter ('active' drops completed tasks, 'completed' drops open ones,
      any other value drops none), the category filter (unless 'all') and, for a
      non-empty term, the search. */
  function FilterTasks(tasks: seq<Task>, filter: string, category: string, term: string, lower: string -> string): (r: seq<Task>)
    ensures forall i :: 0 <= i < |r| ==>
      (filter == "active" ==> !r[i].completed) &&
      (filter == "completed" ==> r[i].completed) &&
      (category != "all" ==> r[i].category == category) &&
      (term != "" ==> Contains(lower(r[i].text), term))
    ensures forall i :: 0 <= i < |tasks| && Shown(tasks[i], filter, category, term, lower) ==> tasks[i] in r
    ensures forall t :: t in r ==> Shown(t, filter, category, term, lower)
    ensures multiset(r) <= multiset(tasks)
  {
    FilterMultiset(tasks, t => Shown(t, filter, category, term, lower));
    Filter(tasks, t => Shown(t, filter, category, term, lower))
  }

  // ---------------------------------------------------------------------------
  // `sortTasks`

  /** The comparator of `sortTasks` returns a value <= 0 for (a, b), so a may stay
      ahead of b. 'priority': higher rank first, then newer first; 'category':
      categories in collation order, then newer first; 'time' and any other mode:
      newer first. `collate` is the order `localeCompare` imposes, as a key. */
  predicate InOrder(mode: string, collate: string -> int, a: Task, b: Task) {
    if mode == "priority" then
      Rank(a.priority) > Rank(b.priority) || (Rank(a.priority) == Rank(b.priority) && a.createdAt >= b.createdAt)
    else if mode == "category" then
      collate(a.category) < collate(b.category) || (collate(a.category) == collate(b.category) && a.createdAt >= b.createdAt)
    else
      a.createdAt >= b.createdAt
  }

  /** The comparator is total and transitive, so it orders any list. */
  lemma InOrderTotal(mode: string, collate: string -> int, a: Task, b: Task, c: Task)
    ensures InOrder(mode, collate, a, b) || InOrder(mode, collate, b, a)
    ensures InOrder(mode, collate, a, b) && InOrder(mode, collate, b, c) ==> InOrder(mode, collate, a, c)
  {
  }

  predicate Sorted(s: seq<Task>, mode: string, collate: string -> int) {
    forall i, j :: 0 <= i < j < |s| ==> InOrder(mode, collate, s[i], s[j])
  }

  /** x placed ahead of the first element it may precede. */
  function Insert(x: Task, s: seq<Task>, mode: string, collate: string -> int): (r: seq<Task>)
    ensures multiset(r) == multiset(s) + multiset{x}
    ensures |r| == |s| + 1
  {
    if s == [] || InOrder(mode, collate, x, s[0]) then [x] + s
    else
      assert s == [s[0]] + s[1..];
      [s[0]] + Insert(x, s[1..], mode, collate)
  }

  /** Inserting into a sorted list keeps it sorted. */
  lemma {:induction false} InsertSorted(x: Task, s: seq<Task>, mode: string, collate: string -> int)
    requires Sorted(s, mode, collate)
    ensures Sorted(Insert(x, s, mode, collate), mode, collate)
  {
    if s == [] || InOrder(mode, collate, x, s[0]) {
      SortedCons(x, s, mode, collate);
    } else {
      var t := Insert(x, s[1..], mode, collate);
      InsertSorted(x, s[1..], mode, collate);
      HeadPrecedesInsert(x, s, mode, collate);
      SortedCons(s[0], t, mode, collate);
    }
  }

  /** A head that may precede the first element of a sorted list, precedes all. */
  lemma SortedCons(x: Task, s: seq<Task>, mode: string, collate: string -> int)
    requires Sorted(s, mode, collate)
    requires s == [] || InOrder(mode, collate, x, s[0]) || forall j :: 0 <= j < |s| ==> InOrder(mode, collate, x, s[j])
    ensures Sorted([x] + s, mode, collate)
  {
    var r := [x] + s;
    forall i, j | 0 <= i < j < |r|
      ensures InOrder(mode, collate, r[i], r[j])
    {
      if i == 0 && j > 1 {
        InOrderTotal(mode, collate, x, s[0], s[j - 1]);
      }
    }
  }

  /** When x goes after the head of s, the head precedes everything after it. */
  lemma HeadPrecedesInsert(x: Task, s: seq<Task>, mode: string, collate: string -> int)
    requires Sorted(s, mode, collate) && s != [] && !InOrder(mode, collate, x, s[0])
    ensures Insert(x, s, mode, collate) == [s[0]] + Insert(x, s[1..], mode, collate)
    ensures forall j :: 0 <= j < |Insert(x, s[1..], mode, collate)| ==>
      InOrder(mode, collate, s[0], Insert(x, s[1..], mode, collate)[j])
  {
    var t := Insert(x, s[1..], mode, collate);
    InOrderTotal(mode, collate, x, s[0], x);
    forall j | 0 <= j < |t|
      ensures InOrder(mode, collate, s[0], t[j])
    {
      assert t[j] in multiset(s[1..]) + multiset{x};
      if t[j] != x {
        assert t[j] in s[1..];
        var k :| 0 <= k < |s[1..]| && s[1..][k] == t[j];
        assert s[k + 1] == t[j];
      }
    }
  }

  /** `sortTasks(tasks)`: a sorted copy, a permutation of its input, in the order of
      the comparator for `mode`. */
  function SortTasks(s: seq<Task>, mode: string, collate: string -> int): (r: seq<Task>)
    ensures multiset(r) == multiset(s)
    ensures Sorted(r, mode, collate)
  {
    if s == [] then []
    else
      assert s == [s[0]] + s[1..];
      var t := SortTasks(s[1..], mode, collate);
      InsertSorted(s[0], t, mode, collate);
      Insert(s[0], t, mode, collate)
  }

  /** In 'time' mode (and any mode not named), the newest task comes first. */
  lemma NewestFirst(s: seq<Task>, mode: string, collate: string -> int)
    requires mode != "priority" && mode != "category"
    ensures forall i, j :: 0 <= i < j < |SortTasks(s, mode, collate)| ==>
      SortTasks(s, mode, collate)[i].createdAt >= SortTasks(s, mode, collate)[j].createdAt
  {
  }

  /** In 'priority' mode every 高 task precedes every 中 task, which precedes every
      低 task. */
  lemma PriorityFirst(s: seq<Task>, collate: string -> int)
    ensures forall i, j :: 0 <= i < j < |SortTasks(s, "priority", collate)| ==>
      Rank(SortTasks(s, "priority", collate)[i].priority) >= Rank(SortTasks(s, "priority", collate)[j].priority)
  {
  }

  // ---------------------------------------------------------------------------
  // `updateStats`

  /** `updateStats`: the total number of tasks and the number of completed ones. */
  function Stats(tasks: seq<Task>): (r: (nat, nat))
    ensures r.0 == |tasks|
    ensures r.1 <= r.0
    ensures r.0 - r.1 == |Filter(tasks, Not(IsCompleted))|
  {
    FilterSplit(tasks, IsCompleted);
    (|tasks|, |Filter(tasks, IsCompleted)|)
  }

  /** Flipping one task's state moves the completed count by exactly one. */
  lemma {:induction false} ToggleCount(tasks: seq<Task>, i: nat)
    requires i < |tasks|
    ensures var flipped := tasks[i := tasks[i].(completed := !tasks[i].completed)];
      Stats(flipped).1 == if tasks[i].completed then Stats(tasks).1 - 1 else Stats(tasks).1 + 1
  {
    var flipped := tasks[i := tasks[i].(completed := !tasks[i].completed)];
    assert tasks == tasks[..i] + [tasks[i]] + tasks[i + 1..];
    assert flipped == tasks[..i] + [flipped[i]] + tasks[i + 1..];
    FilterAppend(tasks[..i] + [tasks[i]], tasks[i + 1..], IsCompleted);
    FilterAppend(tasks[..i], [tasks[i]], IsCompleted);
    FilterAppend(tasks[..i] + [flipped[i]], tasks[i + 1..], IsCompleted);
    FilterAppend(tasks[..i], [flipped[i]], IsCompleted);
  }

  /** Deleting by id leaves no task with that id, keeps every other task, and
      removes as many tasks as carried the id. */
  lemma DeleteSpec(tasks: seq<Task>, id: string)
    ensures forall i :: 0 <= i < |Filter(tasks, OtherId(id))| ==> Filter(tasks, OtherId(id))[i].id != id
    ensures forall i :: 0 <= i < |tasks| && tasks[i].id != id ==> tasks[i] in Filter(tasks, OtherId(id))
    ensures |Filter(tasks, OtherId(id))| + |Filter(tasks, HasId(id))| == |tasks|
  {
    FilterSplit(tasks, HasId(id));
  }

  // ---------------------------------------------------------------------------
  // The page state

  /** The page's module state: the list of tasks, what `saveTasks` last wrote
      to localStorage, the current filter, category and sort mode, and the id of
      whichever task is open in the edit dialog. */
  class TaskManager {
    const trim: string -> string
    const lower: string -> string
    const collate: string -> int
    var tasks: seq<Task>
    var stored: seq<Task>
    var currentFilter: string
    var currentCategory: string
    var currentSort: string
    var editingTaskId: Option<string>

    /** `init` after `loadTasks`: the stored list becomes the list of tasks. */
    constructor (trim: string -> string, lower: string -> string, collate: string -> int, saved: seq<Task>)
      ensures this.trim == trim && this.lower == lower && this.collate == collate
      ensures tasks == saved && stored == saved
      ensures currentFilter == "all" && currentCategory == "all" && currentSort == "time"
      ensures editingTaskId == None
    {
      this.trim := trim;
      this.lower := lower;
      this.collate := collate;
      tasks := saved;
      stored := saved;
      currentFilter := "all";
      currentCategory := "all";
      currentSort := "time";
      editingTaskId := None;
    }

    /** The list `renderTasks` shows for the text in the search box. */
    function View(search: string): (r: seq<Task>)
      reads this
      ensures multiset(r) == multiset(FilterTasks(tasks, currentFilter, currentCategory, trim(lower(search)), lower))
      ensures multiset(r) <= multiset(tasks)
      ensures Sorted(r, currentSort, collate)
      ensures forall i :: 0 <= i < |r| ==> Shown(r[i], currentFilter, currentCategory, trim(lower(search)), lower)
      ensures forall i :: 0 <= i < |tasks| && Shown(tasks[i], currentFilter, currentCategory, trim(lower(search)), lower) ==> tasks[i] in r
    {
      var kept := FilterTasks(tasks, currentFilter, currentCategory, trim(lower(search)), lower);
      var r := SortTasks(kept, currentSort, collate);
      SameElements(kept, r);
      r
    }

    /** `handleAddTask`: text that trims to nothing is refused; otherwise one new
        open task with the trimmed text and an empty description goes to the front
        and the list is saved. */
    method HandleAddTask(input: string, category: string, priority: Priority, id: string, createdAt: int)
      returns (added: bool)
      modifies this
      ensures added <==> trim(input) != ""
      ensures added ==> tasks == [Task(id, trim(input), category, priority, false, createdAt, "")] + old(tasks)
      ensures added ==> stored == tasks
      ensures !added ==> tasks == old(tasks) && stored == old(stored)
      ensures NonEmptyTexts(old(tasks)) ==> NonEmptyTexts(tasks)
      ensures currentFilter == old(currentFilter) && currentCategory == old(currentCategory)
      ensures currentSort == old(currentSort) && editingTaskId == old(editingTaskId)
    {
      var text := trim(input);
      if text == "" {
        return false;
      }
      tasks := [Task(id, text, category, priority, false, createdAt, "")] + tasks;
      stored := tasks;
      return true;
    }

    /** `toggleTask(id)`: flips the state of the first task with that id and saves;
        an unknown id changes nothing. */
    method ToggleTask(id: string)
      modifies this
      ensures match FirstIndex(old(tasks), HasId(id))
        case None => tasks == old(tasks) && stored == old(stored)
        case Some(i) => tasks == old(tasks)[i := old(tasks)[i].(completed := !old(tasks)[i].completed)] && stored == tasks
      ensures NonEmptyTexts(old(tasks)) ==> NonEmptyTexts(tasks)
      ensures currentFilter == old(currentFilter) && currentCategory == old(currentCategory)
      ensures currentSort == old(currentSort) && editingTaskId == old(editingTaskId)
    {
      match FirstIndex(tasks, HasId(id))
      case None =>
      case Some(i) =>
        tasks := tasks[i := tasks[i].(completed := !tasks[i].completed)];
        stored := tasks;
    }

    /** `deleteTask(id)`: once the user confirms, every task with that id goes and
        the others stay in order; the list is saved. */
    method DeleteTask(id: string, confirmed: bool)
      modifies this
      ensures confirmed ==> tasks == Filter(old(tasks), OtherId(id)) && stored == tasks
      ensures !confirmed ==> tasks == old(tasks) && stored == old(stored)
      ensures NonEmptyTexts(old(tasks)) ==> NonEmptyTexts(tasks)
      ensures currentFilter == old(currentFilter) && currentCategory == old(currentCategory)
      ensures currentSort == old(currentSort) && editingTaskId == old(editingTaskId)
    {
      if confirmed {
        tasks := Filter(tasks, OtherId(id));
        stored := tasks;
      }
    }

    /** `editTask(id)`: opens the edit dialog on the first task with that id, whose
        fields prefill the form; an unknown id does nothing. */
    method EditTask(id: string) returns (form: Option<Task>)
      modifies this
      ensures match FirstIndex(tasks, HasId(id))
        case None => form == None && editingTaskId == old(editingTaskId)
        case Some(i) => form == Some(tasks[i]) && editingTaskId == Some(id)
      ensures tasks == old(tasks) && stored == old(stored)
      ensures currentFilter == old(currentFilter) && currentCategory == old(currentCategory)
      ensures currentSort == old(currentSort)
    {
      match FirstIndex(tasks, HasId(id))
      case None =>
        form := None;
      case Some(i) =>
        editingTaskId := Some(id);
        form := Some(tasks[i]);
    }

    /** `closeModal`: the dialog closes and no task is being edited. */
    method CloseModal()
      modifies this
      ensures editingTaskId == None
      ensures tasks == old(tasks) && stored == old(stored)
      ensures currentFilter == old(currentFilter) && currentCategory == old(currentCategory)
      ensures currentSort == old(currentSort)
    {
      editingTaskId := None;
    }

    /** Which task is being edited, if the dialog is open on an existing one. */
    function EditedIndex(): (k: Option<nat>)
      reads this
      ensures k.Some? ==> editingTaskId.Some? && k.value < |tasks| && tasks[k.value].id == editingTaskId.value
      ensures k.None? ==> editingTaskId.None? || forall j :: 0 <= j < |tasks| ==> tasks[j].id != editingTaskId.value
    {
      match editingTaskId
      case None => None
      case Some(eid) => FirstIndex(tasks, HasId(eid))
    }

    /** `handleSaveTask` as written: whichever task is being edited takes the trimmed text,
        the category, the priority and the trimmed description first; only then is
        an empty text refused, leaving the changed task in the list, unsaved, with
        the dialog still open. Otherwise the list is saved and the dialog closed. */
    method HandleSaveTask(text: string, category: string, priority: Priority, description: string)
      returns (saved: bool)
      modifies this
      ensures match old(EditedIndex())
        case None => !saved && tasks == old(tasks) && stored == old(stored) && editingTaskId == old(editingTaskId)
        case Some(i) =>
          tasks == SaveEdit(old(tasks), i, trim(text), category, priority, trim(description)) &&
          (saved <==> trim(text) != "") &&
          (saved ==> stored == tasks && editingTaskId == None) &&
          (!saved ==> stored == old(stored) && editingTaskId == old(editingTaskId))
      ensures currentFilter == old(currentFilter) && currentCategory == old(currentCategory)
      ensures currentSort == old(currentSort)
    {
      saved := false;
      match EditedIndex()
      case None =>
      case Some(i) =>
        tasks := SaveEdit(tasks, i, trim(text), category, priority, trim(description));
        if tasks[i].text == "" {
          return;
        }
        stored := tasks;
        editingTaskId := None;
        saved := true;
    }

    /** `handleSaveTask` with the empty-text check moved ahead of the writes: an
        empty text leaves the list as it was, so every task keeps a non-empty
        text. */
    method SaveTaskChecked(text: string, category: string, priority: Priority, description: string)
      returns (saved: bool)
      modifies this
      ensures match old(EditedIndex())
        case None => !saved && tasks == old(tasks) && stored == old(stored) && editingTaskId == old(editingTaskId)
        case Some(i) =>
          (saved <==> trim(text) != "") &&
          (saved ==> tasks == SaveEdit(old(tasks), i, trim(text), category, priority, trim(description)) &&
                     stored == tasks && editingTaskId == None) &&
          (!saved ==> tasks == old(tasks) && stored == old(stored) && editingTaskId == old(editingTaskId))
      ensures NonEmptyTexts(old(tasks)) ==> NonEmptyTexts(tasks)
      ensures currentFilter == old(currentFilter) && currentCategory == old(currentCategory)
      ensures currentSort == old(currentSort)
    {
      saved := false;
      match EditedIndex()
      case None =>
      case Some(i) =>
        var t := trim(text);
        if t == "" {
          return;
        }
        tasks := SaveEdit(tasks, i, t, category, priority, trim(description));
        stored := tasks;
        editingTaskId := None;
        saved := true;
    }
  }

  /** The edit `handleSaveTask` applies to the task at index i (before it checks the
      text): that task keeps its id and takes the new text, and no other task
      changes. */
  function SaveEdit(tasks: seq<Task>, i: nat, text: string, category: string, priority: Priority, description: string): (r: seq<Task>)
    requires i < |tasks|
    ensures |r| == |tasks| && r[i].id == tasks[i].id && r[i].text == text
    ensures forall j :: 0 <= j < |tasks| && j != i ==> r[j] == tasks[j]
  {
    tasks[i := tasks[i].(text := text, category := category, priority := priority, description := description)]
  }

  /** The write-before-check order of `handleSaveTask` breaks the guarantee that
      every task has a text: a list with one task "a" being edited to a text that
      trims to "" ends with an empty-text task in memory, which the next save of
      any other change writes to localStorage. */
  lemma SaveTaskEmptiesText()
    ensures var tasks := [Task("1", "a", "work", Medium, false, 0, "")];
      NonEmptyTexts(tasks) && !NonEmptyTexts(SaveEdit(tasks, 0, "", "work", Medium, ""))
  {
    var tasks := [Task("1", "a", "work", Medium, false, 0, "")];
    assert SaveEdit(tasks, 0, "", "work", Medium, "")[0].text == "";
  }
}
