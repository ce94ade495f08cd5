/** The to-do list of web-project/scripts/todo.js: adding, deleting, toggling and
    editing todos, clearing the finished ones, the filtered and sorted view the
    list renders, and the counter beneath it. The clock, the random id suffix and
    string trimming come in as parameters. */
module TodoList {
  import opened Common

  /** A todo record; `createdAt` is the creation instant as an abstract integer and
      `priority` a number, larger meaning more important. */
  datatype Todo = Todo(id: string, text: string, done: bool, createdAt: int, priority: int)

  function HasId(id: string): Todo -> bool {
    (t: Todo) => t.id == id
  }

  function OtherId(id: string): Todo -> bool {
    Not(HasId(id))
  }

  function IsDone(t: Todo): bool {
    t.done
  }

  // ---------------------------------------------------------------------------
  // The filter of `getViewTodos`

  /** Whether a todo passes the filter: 'active' admits only unfinished todos,
      'done' only finished ones, and every other value admits all. */
  predicate Passes(t: Todo, filter: string) {
    (filter == "active" ==> !t.done) && (filter == "done" ==> t.done)
  }

  /** The copy `getViewTodos` takes and filters: the todos that pass, each as often
      as in the list, and for a filter other than 'active' or 'done' the list
      itself. */
  function FilterView(todos: seq<Todo>, filter: string): (r: seq<Todo>)
    ensures forall i :: 0 <= i < |r| ==> Passes(r[i], filter)
    ensures forall i :: 0 <= i < |todos| && Passes(todos[i], filter) ==> todos[i] in r
    ensures multiset(r) <= multiset(todos)
    ensures filter != "active" && filter != "done" ==> r == todos
  {
    if filter == "active" then
      FilterMultiset(todos, Not(IsDone));
      var r := Filter(todos, Not(IsDone));
      assert forall i :: 0 <= i < |r| ==> Not(IsDone)(r[i]) == !IsDone(r[i]);
      assert forall i :: 0 <= i < |todos| ==> Not(IsDone)(todos[i]) == !IsDone(todos[i]);
      r
    else if filter == "done" then
      FilterMultiset(todos, IsDone);
      Filter(todos, IsDone)
    else
      todos
  }

  // ---------------------------------------------------------------------------
  // The sort of `getViewTodos`

  /** The three modes the sort select offers. */
  predicate IsSortMode(mode: string) {
    mode == "created_asc" || mode == "created_desc" || mode == "priority_desc"
  }

  /** The comparator of each mode returns a value <= 0 for (a, b), so a may stay
      ahead of b. 'created_asc': older first; 'created_desc': newer first;
      'priority_desc': higher priority first, then newer first. Any other mode
      does not sort, so every order is acceptable. */
  predicate InOrder(mode: string, a: Todo, b: Todo) {
    if mode == "created_asc" then a.createdAt <= b.createdAt
    else if mode == "created_desc" then a.createdAt >= b.createdAt
    else if mode == "priority_desc" then
      a.priority > b.priority || (a.priority == b.priority && a.createdAt >= b.createdAt)
    else true
  }

  /** Each comparator is total and transitive, so it orders any list. */
  lemma InOrderTotal(mode: string, a: Todo, b: Todo, c: Todo)
    ensures InOrder(mode, a, b) || InOrder(mode, b, a)
    ensures InOrder(mode, a, b) && InOrder(mode, b, c) ==> InOrder(mode, a, c)
  {
  }

  predicate Sorted(s: seq<Todo>, mode: string) {
    forall i, j :: 0 <= i < j < |s| ==> InOrder(mode, s[i], s[j])
  }

  /** x placed ahead of the first element it may precede. */
  function Insert(x: Todo, s: seq<Todo>, mode: string): (r: seq<Todo>)
    ensures multiset(r) == multiset(s) + multiset{x}
    ensures |r| == |s| + 1
  {
    if s == [] || InOrder(mode, x, s[0]) then [x] + s
    else
      assert s == [s[0]] + s[1..];
      [s[0]] + Insert(x, s[1..], mode)
  }

  /** Inserting into a sorted list keeps it sorted. */
  lemma {:induction false} InsertSorted(x: Todo, s: seq<Todo>, mode: string)
    requires Sorted(s, mode)
    ensures Sorted(Insert(x, s, mode), mode)
  {
    if s == [] || InOrder(mode, x, s[0]) {
      SortedCons(x, s, mode);
    } else {
      var t := Insert(x, s[1..], mode);
      InsertSorted(x, s[1..], mode);
      HeadPrecedesInsert(x, s, mode);
      SortedCons(s[0], t, mode);
    }
  }

  /** A head that may precede the first element of a sorted list, precedes all. */
  lemma SortedCons(x: Todo, s: seq<Todo>, mode: string)
    requires Sorted(s, mode)
    requires s == [] || InOrder(mode, x, s[0]) || forall j :: 0 <= j < |s| ==> InOrder(mode, x, s[j])
    ensures Sorted([x] + s, mode)
  {
    var r := [x] + s;
    forall i, j | 0 <= i < j < |r|
      ensures InOrder(mode, r[i], r[j])
    {
      if i == 0 && j > 1 {
        InOrderTotal(mode, x, s[0], s[j - 1]);
      }
    }
  }

  /** When x goes after the head of s, the head precedes everything after it. */
  lemma HeadPrecedesInsert(x: Todo, s: seq<Todo>, mode: string)
    requires Sorted(s, mode) && s != [] && !InOrder(mode, x, s[0])
    ensures Insert(x, s, mode) == [s[0]] + Insert(x, s[1..], mode)
    ensures forall j :: 0 <= j < |Insert(x, s[1..], mode)| ==> InOrder(mode, s[0], Insert(x, s[1..], mode)[j])
  {
    var t := Insert(x, s[1..], mode);
    InOrderTotal(mode, x, s[0], x);
    forall j | 0 <= j < |t|
      ensures InOrder(mode, s[0], t[j])
    {
      assert t[j] in multiset(s[1..]) + multiset{x};
      if t[j] != x {
        assert t[j] in s[1..];
        var k :| 0 <= k < |s[1..]| && s[1..][k] == t[j];
        assert s[k + 1] == t[j];
      }
    }
  }

  /** `view.sort(comparator)`: a permutation of its input in the order of the
      comparator for `mode`. */
  function SortTodos(s: seq<Todo>, mode: string): (r: seq<Todo>)
    ensures multiset(r) == multiset(s)
    ensures Sorted(r, mode)
  {
    if s == [] then []
    else
      assert s == [s[0]] + s[1..];
      var t := SortTodos(s[1..], mode);
      InsertSorted(s[0], t, mode);
      Insert(s[0], t, mode)
  }

  // ---------------------------------------------------------------------------
  // The counter of `render`

  /** The counter under the list: the number of todos and the number of
      unfinished ones. */
  function Counter(todos: seq<Todo>): (r: (nat, nat))
    ensures r.0 == |todos|
    ensures r.1 <= r.0
    ensures r.0 - r.1 == |Filter(todos, IsDone)|
  {
    FilterSplit(todos, IsDone);
    (|todos|, |Filter(todos, Not(IsDone))|)
  }

  /** Appending an unfinished todo adds one to both numbers. */
  lemma AddCounter(todos: seq<Todo>, t: Todo)
    requires !t.done
    ensures Counter(todos + [t]) == (Counter(todos).0 + 1, Counter(todos).1 + 1)
  {
    FilterAppend(todos, [t], Not(IsDone));
    FilterSingle(t, Not(IsDone));
  }

  /** Flipping one todo moves the unfinished number by one and keeps the total. */
  lemma ToggleCounter(todos: seq<Todo>, i: nat)
    requires i < |todos|
    ensures var flipped := todos[i := todos[i].(done := !todos[i].done)];
      Counter(flipped).0 == Counter(todos).0 &&
      Counter(flipped).1 == if todos[i].done then Counter(todos).1 + 1 else Counter(todos).1 - 1
  {
    var y := todos[i].(done := !todos[i].done);
    FilterReplace(todos, i, y, Not(IsDone));
    assert Not(IsDone)(y) == !IsDone(y) && Not(IsDone)(todos[i]) == !IsDone(todos[i]);
  }

  /** Changing a todo's text changes neither number. */
  lemma EditCounter(todos: seq<Todo>, i: nat, text: string)
    requires i < |todos|
    ensures Counter(todos[i := todos[i].(text := text)]) == Counter(todos)
  {
    var y := todos[i].(text := text);
    FilterReplace(todos, i, y, Not(IsDone));
    assert Not(IsDone)(y) == !IsDone(y) && Not(IsDone)(todos[i]) == !IsDone(todos[i]);
  }

  /** After clearing the finished todos every remaining one is unfinished: both
      numbers equal the old unfinished number. */
  lemma ClearDoneCounter(todos: seq<Todo>)
    ensures Counter(Filter(todos, Not(IsDone))) == (Counter(todos).1, Counter(todos).1)
  {
    var open := Filter(todos, Not(IsDone));
    FilterAll(open, Not(IsDone));
  }

  /** Deleting an id no todo carries changes nothing; otherwise the total drops by
      the number of todos with that id, and the ones left carry other ids. */
  lemma DeleteCounter(todos: seq<Todo>, id: string)
    ensures (forall i :: 0 <= i < |todos| ==> todos[i].id != id) ==> Filter(todos, OtherId(id)) == todos
    ensures Counter(Filter(todos, OtherId(id))).0 == Counter(todos).0 - |Filter(todos, HasId(id))|
    ensures forall i :: 0 <= i < |Filter(todos, OtherId(id))| ==> Filter(todos, OtherId(id))[i].id != id
  {
    FilterSplit(todos, HasId(id));
    if forall i :: 0 <= i < |todos| ==> todos[i].id != id {
      FilterAll(todos, OtherId(id));
    }
  }

  // ---------------------------------------------------------------------------
  // The page state

  /** The page's state: the list of todos, what `saveTodos` last wrote to
      localStorage, the current filter and the current sort mode. */
  class TodoApp {
    const trim: string -> string
    var todos: seq<Todo>
    var stored: seq<Todo>
    var filter: string
    var sortMode: string

    /** `init` after `loadTodos`: the stored list becomes the list of todos, the
        filter is 'all' and the sort mode 'created_desc'. */
    constructor (trim: string -> string, saved: seq<Todo>)
      ensures this.trim == trim
      ensures todos == saved && stored == saved
      ensures filter == "all" && sortMode == "created_desc"
    {
      this.trim := trim;
      todos := saved;
      stored := saved;
      filter := "all";
      sortMode := "created_desc";
    }

    /** `getViewTodos`: the todos that pass the filter, sorted by the mode's
        comparator; for a mode the select does not offer, the filtered copy as it
        is. The list itself stays as it was. */
    function ViewTodos(): (r: seq<Todo>)
      reads this
      ensures multiset(r) == multiset(FilterView(todos, filter))
      ensures Sorted(r, sortMode)
      ensures !IsSortMode(sortMode) ==> r == FilterView(todos, filter)
      ensures forall i :: 0 <= i < |r| ==> Passes(r[i], filter)
      ensures forall i :: 0 <= i < |todos| && Passes(todos[i], filter) ==> todos[i] in r
    {
      var kept := FilterView(todos, filter);
      if IsSortMode(sortMode) then
        var r := SortTodos(kept, sortMode);
        SameElements(kept, r);
        r
      else
        kept
    }

    /** `addTodoFromInput`: text that trims to nothing is refused; otherwise one
        unfinished todo with the trimmed text and priority 1 goes to the end and
        the list is saved. */
    method AddTodoFromInput(input: string, id: string, createdAt: int) returns (added: bool)
      modifies this
      ensures added <==> trim(input) != ""
      ensures added ==> todos == old(todos) + [Todo(id, trim(input), false, createdAt, 1)] && stored == todos
      ensures !added ==> todos == old(todos) && stored == old(stored)
      ensures filter == old(filter) && sortMode == old(sortMode)
    {
      var text := trim(input);
      if text == "" {
        return false;
      }
      todos := todos + [Todo(id, text, false, createdAt, 1)];
      stored := todos;
      return true;
    }

    /** `deleteTodo(id)`: every todo with that id goes, the others stay in order,
        and the list is saved. */
    method DeleteTodo(id: string)
      modifies this
      ensures todos == Filter(old(todos), OtherId(id)) && stored == todos
      ensures filter == old(filter) && sortMode == old(sortMode)
    {
      todos := Filter(todos, OtherId(id));
      stored := todos;
    }

    /** `toggleDone(id)`: flips the first todo with that id and saves; an unknown
        id changes nothing. */
    method ToggleDone(id: string)
      modifies this
      ensures match FirstIndex(old(todos), HasId(id))
        case None => todos == old(todos) && stored == old(stored)
        case Some(i) => todos == old(todos)[i := old(todos)[i].(done := !old(todos)[i].done)] && stored == todos
      ensures filter == old(filter) && sortMode == old(sortMode)
    {
      match FirstIndex(todos, HasId(id))
      case None =>
      case Some(i) =>
        todos := todos[i := todos[i].(done := !todos[i].done)];
        stored := todos;
    }

    /** `editTodo(id, newText)`: the first todo with that id takes the trimmed
        text and the list is saved; an unknown id changes nothing. */
    method EditTodo(id: string, newText: string)
      modifies this
      ensures match FirstIndex(old(todos), HasId(id))
        case None => todos == old(todos) && stored == old(stored)
        case Some(i) => todos == old(todos)[i := old(todos)[i].(text := trim(newText))] && stored == todos
      ensures filter == old(filter) && sortMode == old(sortMode)
    {
      match FirstIndex(todos, HasId(id))
      case None =>
      case Some(i) =>
        todos := todos[i := todos[i].(text := trim(newText))];
        stored := todos;
    }

    /** `clearDone`: only the unfinished todos stay, in order, and the list is
        saved. */
    method ClearDone()
      modifies this
      ensures todos == Filter(old(todos), Not(IsDone)) && stored == todos
      ensures filter == old(filter) && sortMode == old(sortMode)
    {
      todos := Filter(todos, Not(IsDone));
      stored := todos;
    }

    /** `setFilter(newFilter)`: the view switches to the new filter. */
    method SetFilter(newFilter: string)
      modifies this
      ensures filter == newFilter
      ensures todos == old(todos) && stored == old(stored) && sortMode == old(sortMode)
    {
      filter := newFilter;
    }

    /** `setSort(s)`: the view switches to the new sort mode. */
    method SetSort(s: string)
      modifies this
      ensures sortMode == s
      ensures todos == old(todos) && stored == old(stored) && filter == old(filter)
    {
      sortMode := s;
    }
  }
}
