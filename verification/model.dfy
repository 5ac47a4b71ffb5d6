/** The in-memory record model of app.js: a collection of named lists (pages),
    each an ordered sequence of todos, plus the id of the active list. */
module Model {
  import opened Wrappers
  import opened Seqs

  datatype Todo = Todo(id: string, text: string, done: bool)

  datatype TodoList = TodoList(id: string, name: string, todos: seq<Todo>)

  /** `activeListId` is `null` (None) or a string that need not name any list. */
  datatype State = State(lists: seq<TodoList>, activeListId: Option<string>)

  function ListIds(lists: seq<TodoList>): seq<string> {
    Map(lists, (l: TodoList) => l.id)
  }

  function TodoIds(todos: seq<Todo>): seq<string> {
    Map(todos, (t: Todo) => t.id)
  }

  predicate DistinctListIds(lists: seq<TodoList>) {
    forall i, j :: 0 <= i < j < |lists| ==> lists[i].id != lists[j].id
  }

  predicate DistinctTodoIds(todos: seq<Todo>) {
    forall i, j :: 0 <= i < j < |todos| ==> todos[i].id != todos[j].id
  }

  /** No list in `lists` holds a todo with id `id`. */
  predicate TodoIdUnused(lists: seq<TodoList>, id: string) {
    forall i :: 0 <= i < |lists| ==> id !in TodoIds(lists[i].todos)
  }

  /** The invariant the handlers keep: there is always a list, list ids are
      unique and no todo has empty text. */
  predicate Valid(s: State) {
    && |s.lists| > 0
    && DistinctListIds(s.lists)
    && forall i, j :: 0 <= i < |s.lists| && 0 <= j < |s.lists[i].todos| ==> s.lists[i].todos[j].text != []
  }

  /** `lists.find(l => l.id === id)`, as a position. */
  function FindList(lists: seq<TodoList>, id: string): (r: Option<nat>)
    ensures r.None? <==> id !in ListIds(lists)
    ensures r.Some? ==> r.value < |lists| && lists[r.value].id == id
    ensures r.Some? ==> forall k :: 0 <= k < r.value ==> lists[k].id != id
  {
    IndexOf(ListIds(lists), id)
  }

  /** `todos.find(t => t.id === id)`, as a position. */
  function FindTodo(todos: seq<Todo>, id: string): (r: Option<nat>)
    ensures r.None? <==> id !in TodoIds(todos)
    ensures r.Some? ==> r.value < |todos| && todos[r.value].id == id
    ensures r.Some? ==> forall k :: 0 <= k < r.value ==> todos[k].id != id
  {
    IndexOf(TodoIds(todos), id)
  }

  lemma NotInListIds(lists: seq<TodoList>, id: string)
    ensures id !in ListIds(lists) <==> forall i :: 0 <= i < |lists| ==> lists[i].id != id
  {
    if id in ListIds(lists) {
      var i :| 0 <= i < |lists| && ListIds(lists)[i] == id;
      assert lists[i].id == id;
    }
  }

  /** Filtering keeps list ids unique. */
  lemma {:induction false} FilterDistinctIds(lists: seq<TodoList>, keep: TodoList -> bool)
    requires DistinctListIds(lists)
    ensures DistinctListIds(Filter(lists, keep))
  {
    if |lists| > 0 {
      var tail := lists[1..];
      FilterDistinctIds(tail, keep);
      var rest := Filter(tail, keep);
      assert forall j :: 0 <= j < |rest| ==> rest[j].id != lists[0].id by {
        forall j | 0 <= j < |rest|
          ensures rest[j].id != lists[0].id
        {
          assert rest[j] in tail;
          var i :| 0 <= i < |tail| && tail[i] == rest[j];
          assert tail[i] == lists[i + 1];
        }
      }
    }
  }

  lemma NotInTodoIds(todos: seq<Todo>, id: string)
    ensures id !in TodoIds(todos) <==> forall i :: 0 <= i < |todos| ==> todos[i].id != id
  {
    if id in TodoIds(todos) {
      var i :| 0 <= i < |todos| && TodoIds(todos)[i] == id;
      assert todos[i].id == id;
    }
  }

  /** A list appended under a new id is found at the end. */
  lemma FindAppended(lists: seq<TodoList>, l: TodoList)
    requires l.id !in ListIds(lists)
    ensures FindList(lists + [l], l.id) == Some(|lists|)
    ensures DistinctListIds(lists) ==> DistinctListIds(lists + [l])
  {
    NotInListIds(lists, l.id);
    var r := FindList(lists + [l], l.id);
    assert (lists + [l])[|lists|].id == l.id;
    assert l.id in ListIds(lists + [l]);
  }

  /** The active id is set and names some list. */
  predicate ActiveNamesList(s: State) {
    s.activeListId.Some? && s.activeListId.value in ListIds(s.lists)
  }

  /** Position of the list `currentList` returns: the first list whose id is
      the active id, else the first list, else none when there are no lists. */
  function CurrentIndex(s: State): (r: Option<nat>)
    ensures r.None? <==> |s.lists| == 0
    ensures r.Some? ==> r.value < |s.lists|
    ensures ActiveNamesList(s) ==>
      && s.lists[r.value].id == s.activeListId.value
      && forall k :: 0 <= k < r.value ==> s.lists[k].id != s.activeListId.value
    ensures !ActiveNamesList(s) && |s.lists| > 0 ==> r == Some(0)
  {
    var found := if s.activeListId.Some? then FindList(s.lists, s.activeListId.value) else None;
    if found.Some? then found
    else if |s.lists| > 0 then Some(0)
    else None
  }

  /** `currentList()`: the list the active id names, falling back to the first list. */
  function CurrentList(s: State): (r: Option<TodoList>)
    ensures r.None? <==> |s.lists| == 0
    ensures r.Some? ==> r.value in s.lists
    ensures ActiveNamesList(s) ==> r.Some? && r.value.id == s.activeListId.value
    ensures !ActiveNamesList(s) && |s.lists| > 0 ==> r == Some(s.lists[0])
  {
    match CurrentIndex(s)
    case None => None
    case Some(k) => Some(s.lists[k])
  }

  /** With unique list ids the current list is the only list carrying the active id. */
  lemma CurrentListUnique(s: State, i: nat)
    requires DistinctListIds(s.lists)
    requires ActiveNamesList(s)
    requires i < |s.lists| && s.lists[i].id == s.activeListId.value
    ensures CurrentList(s) == Some(s.lists[i])
    ensures CurrentIndex(s) == Some(i)
  {
  }

  /** `createDefault()`, with the result of `uid()` passed in. */
  function CreateDefault(id: string): (l: TodoList)
    ensures l.id == id && l.name == "Main" && l.todos == []
  {
    TodoList(id, "Main", [])
  }

  /** `initState()`: one empty list named "Main", which is the current list. */
  function InitState(id: string): (r: State)
    ensures Valid(r)
    ensures |r.lists| == 1 && r.lists[0] == CreateDefault(id)
    ensures r.activeListId == Some(id)
    ensures CurrentList(r) == Some(r.lists[0])
  {
    var def := CreateDefault(id);
    State([def], Some(def.id))
  }
}
