/** The state changes that app.js performs inline in its event handlers,
    extracted as pure functions. A dialog's answer (`prompt`, `confirm`, the
    new-list input, the checkbox) is an argument, and the result of `uid()` is a
    fresh id that the caller guarantees is not in use. */
module Mutators {
  import opened Wrappers
  import opened Seqs
  import opened Strings
  import opened Model

  /** The name the create-list dialog settles on: the trimmed input, or
      "Page n" (n = number of lists + 1) when the input is blank. */
  function NewListName(input: string, count: nat): (name: string)
    ensures name != []
    ensures !AllWhitespace(input) ==> name == Trim(input)
    ensures AllWhitespace(input) ==> name == "Page " + NatToString(count + 1)
  {
    var t := Trim(input);
    if t != [] then t else "Page " + NatToString(count + 1)
  }

  /** Create list (the create-list confirm handler). */
  function CreateList(s: State, input: string, freshId: string): (r: State)
    requires freshId !in ListIds(s.lists)
    ensures |r.lists| == |s.lists| + 1 && r.lists[..|s.lists|] == s.lists
    ensures r.lists[|s.lists|].id == freshId && r.lists[|s.lists|].todos == []
    ensures r.lists[|s.lists|].name == NewListName(input, |s.lists|)
    ensures CurrentList(r) == Some(r.lists[|s.lists|])
    ensures r.activeListId == Some(freshId)
    ensures Valid(s) ==> Valid(r)
  {
    var list := TodoList(freshId, NewListName(input, |s.lists|), []);
    var r := State(s.lists + [list], Some(freshId));
    FindAppended(s.lists, list);
    assert r.lists[..|s.lists|] == s.lists;
    assert CurrentIndex(r) == Some(|s.lists|);
    r
  }

  /** Rename (the rename handler): the current list takes the trimmed answer
      of the prompt, unless the prompt was cancelled or the answer is blank. */
  function RenameList(s: State, answer: Option<string>): (r: State)
    ensures r.activeListId == s.activeListId
    ensures ListIds(r.lists) == ListIds(s.lists)
    ensures CurrentIndex(r) == CurrentIndex(s)
    ensures forall i :: 0 <= i < |s.lists| ==> r.lists[i].todos == s.lists[i].todos
    ensures forall i :: 0 <= i < |s.lists| && Some(i) != CurrentIndex(s) ==> r.lists[i] == s.lists[i]
    ensures answer.None? || AllWhitespace(answer.value) ==> r == s
    ensures answer.Some? && !AllWhitespace(answer.value) && |s.lists| > 0 ==>
      CurrentList(r).value.name == Trim(answer.value)
    ensures Valid(s) ==> Valid(r)
  {
    if answer.None? || AllWhitespace(answer.value) then s
    else match CurrentIndex(s)
      case None => s
      case Some(k) => ReplaceList(s, k, s.lists[k].(name := Trim(answer.value)))
  }

  /** Renaming twice with the same answer is renaming once. */
  lemma RenameTwice(s: State, answer: Option<string>)
    ensures RenameList(RenameList(s, answer), answer) == RenameList(s, answer)
  {
    if answer.Some? && !AllWhitespace(answer.value) && |s.lists| > 0 {
      var r := RenameList(s, answer);
      var k := CurrentIndex(s).value;
      assert r.lists[k].name == Trim(answer.value);
      assert RenameList(r, answer).lists == r.lists;
    }
  }

  /** `lists.filter(l => l.id !== gone)`: the lists that survive deleting the
      list with id `gone`. */
  function Without(lists: seq<TodoList>, gone: string): (r: seq<TodoList>)
    ensures gone !in ListIds(r)
    ensures forall l :: l in r <==> l in lists && l.id != gone
    ensures DistinctListIds(lists) ==> DistinctListIds(r)
  {
    var keep := (l: TodoList) => l.id != gone;
    var r := Filter(lists, keep);
    assert forall i :: 0 <= i < |r| ==> r[i] in r;
    NotInListIds(r, gone);
    assert DistinctListIds(lists) ==> DistinctListIds(r) by {
      if DistinctListIds(lists) {
        FilterDistinctIds(lists, keep);
      }
    }
    r
  }

  /** Delete list (the delete handler, after `confirm`): every list with the
      current list's id is removed; the first remaining list becomes active,
      and when none remains a fresh "Main" list takes its place. */
  function DeleteList(s: State, confirmed: bool, freshId: string): (r: State)
    requires freshId !in ListIds(s.lists)
    ensures |s.lists| == 0 || !confirmed ==> r == s
    ensures |s.lists| > 0 ==> |r.lists| > 0
    ensures |s.lists| > 0 && confirmed ==>
      var gone := CurrentList(s).value.id;
      && gone !in ListIds(r.lists)
      && r.activeListId == Some(r.lists[0].id)
      && ((forall i :: 0 <= i < |s.lists| ==> s.lists[i].id == gone) ==>
            r.lists == [TodoList(freshId, "Main", [])])
      && ((exists i :: 0 <= i < |s.lists| && s.lists[i].id != gone) ==>
            forall l :: l in r.lists <==> l in s.lists && l.id != gone)
    ensures Valid(s) ==> Valid(r)
  {
    match CurrentIndex(s)
    case None => s
    case Some(k) =>
      if !confirmed then s
      else
        var rest := Without(s.lists, s.lists[k].id);
        if |rest| == 0 then
          assert forall i :: 0 <= i < |s.lists| ==> s.lists[i] in s.lists;
          var def := CreateDefault(freshId);
          State([def], Some(def.id))
        else
          assert forall i :: 0 <= i < |rest| ==> rest[i] in s.lists;
          State(rest, Some(rest[0].id))
  }

  /** With unique list ids, deleting removes exactly the current list and keeps
      the order of the others. */
  lemma WithoutUnique(lists: seq<TodoList>, k: nat)
    requires DistinctListIds(lists)
    requires k < |lists|
    ensures Without(lists, lists[k].id) == lists[..k] + lists[k + 1..]
  {
    var gone := lists[k].id;
    FilterDropsOne(lists, k, (l: TodoList) => l.id != gone);
  }

  lemma DeleteListKeepsOrder(s: State, freshId: string)
    requires freshId !in ListIds(s.lists)
    requires DistinctListIds(s.lists) && |s.lists| >= 2
    ensures var k := CurrentIndex(s).value;
      DeleteList(s, true, freshId).lists == s.lists[..k] + s.lists[k + 1..]
  {
    WithoutUnique(s.lists, CurrentIndex(s).value);
  }

  /** Deleting a list just created takes the lists back to what they were
      and makes the first of them active. */
  lemma DeleteUndoesCreate(s: State, input: string, freshId: string, otherId: string)
    requires DistinctListIds(s.lists) && |s.lists| > 0
    requires freshId !in ListIds(s.lists)
    requires otherId !in ListIds(s.lists) && otherId != freshId
    ensures DeleteList(CreateList(s, input, freshId), true, otherId) == State(s.lists, Some(s.lists[0].id))
  {
    var n := |s.lists|;
    var c := CreateList(s, input, freshId);
    FindAppended(s.lists, c.lists[n]);
    assert c.lists == s.lists + [c.lists[n]];
    CurrentListUnique(c, n);
    WithoutUnique(c.lists, n);
    assert c.lists[..n] + c.lists[n + 1..] == s.lists;
    assert otherId !in ListIds(c.lists) by {
      NotInListIds(s.lists, otherId);
      NotInListIds(c.lists, otherId);
    }
  }

  /** Select list (the sidebar click handler): the id is taken as it is. */
  function SelectList(s: State, id: string): (r: State)
    ensures r.lists == s.lists
    ensures r.activeListId == Some(id)
    ensures id in ListIds(s.lists) ==> CurrentList(r).value.id == id
    ensures id !in ListIds(s.lists) && |s.lists| > 0 ==> CurrentList(r) == Some(s.lists[0])
    ensures Valid(s) ==> Valid(r)
  {
    s.(activeListId := Some(id))
  }

  /** A todo whose id is not yet used keeps todo ids unique when appended. */
  lemma FreshTodoAppended(todos: seq<Todo>, t: Todo)
    requires t.id !in TodoIds(todos)
    ensures DistinctTodoIds(todos) ==> DistinctTodoIds(todos + [t])
    ensures forall j :: 0 <= j < |todos| ==> todos[j].id != t.id
  {
    NotInTodoIds(todos, t.id);
  }

  /** Add todo (`addTodo`): blank input is ignored; otherwise one todo with the
      fresh id, the trimmed text and `done = false` goes at the end of the
      current list and nothing else changes. */
  function AddTodo(s: State, input: string, freshId: string): (r: State)
    requires TodoIdUnused(s.lists, freshId)
    ensures AllWhitespace(input) || |s.lists| == 0 ==> r == s
    ensures r.activeListId == s.activeListId
    ensures ListIds(r.lists) == ListIds(s.lists)
    ensures CurrentIndex(r) == CurrentIndex(s)
    ensures forall i :: 0 <= i < |s.lists| && Some(i) != CurrentIndex(s) ==> r.lists[i] == s.lists[i]
    ensures !AllWhitespace(input) && |s.lists| > 0 ==>
      var k := CurrentIndex(s).value;
      && r.lists[k].name == s.lists[k].name
      && r.lists[k].todos == s.lists[k].todos + [Todo(freshId, Trim(input), false)]
      && (DistinctTodoIds(s.lists[k].todos) ==> DistinctTodoIds(r.lists[k].todos))
    ensures Valid(s) ==> Valid(r)
  {
    var text := Trim(input);
    if text == [] then s
    else
      match CurrentIndex(s)
      case None => s
      case Some(k) =>
        var l := s.lists[k];
        FreshTodoAppended(l.todos, Todo(freshId, text, false));
        ReplaceList(s, k, l.(todos := l.todos + [Todo(freshId, text, false)]))
  }

  /** The list at position `k` replaced by one with the same id: the other
      lists, the active id and so the current list's position stay. */
  function ReplaceList(s: State, k: nat, l: TodoList): (r: State)
    requires k < |s.lists| && l.id == s.lists[k].id
    ensures r.activeListId == s.activeListId && |r.lists| == |s.lists|
    ensures r.lists[k] == l
    ensures forall i :: 0 <= i < |s.lists| && i != k ==> r.lists[i] == s.lists[i]
    ensures ListIds(r.lists) == ListIds(s.lists)
    ensures CurrentIndex(r) == CurrentIndex(s)
    ensures Valid(s) && (forall j :: 0 <= j < |l.todos| ==> l.todos[j].text != []) ==> Valid(r)
  {
    var r := s.(lists := s.lists[k := l]);
    assert ListIds(r.lists) == ListIds(s.lists);
    r
  }

  /** Delete todo (the delete button): the todos of the current list with that
      id are dropped when one exists; nothing else changes. */
  function DeleteTodo(s: State, todoId: string): (r: State)
    ensures r.activeListId == s.activeListId
    ensures ListIds(r.lists) == ListIds(s.lists)
    ensures CurrentIndex(r) == CurrentIndex(s)
    ensures forall i :: 0 <= i < |s.lists| && Some(i) != CurrentIndex(s) ==> r.lists[i] == s.lists[i]
    ensures |s.lists| == 0 || todoId !in TodoIds(CurrentList(s).value.todos) ==> r == s
    ensures |s.lists| > 0 ==>
      var k := CurrentIndex(s).value;
      && r.lists[k].name == s.lists[k].name
      && todoId !in TodoIds(r.lists[k].todos)
      && (forall t :: t in r.lists[k].todos <==> t in s.lists[k].todos && t.id != todoId)
      && forall t: Todo :: t.id != todoId ==> multiset(r.lists[k].todos)[t] == multiset(s.lists[k].todos)[t]
    ensures Valid(s) ==> Valid(r)
  {
    match CurrentIndex(s)
    case None => s
    case Some(k) =>
      var todos := s.lists[k].todos;
      match FindTodo(todos, todoId)
      case None => s
      case Some(_) =>
        var kept := Filter(todos, (t: Todo) => t.id != todoId);
        assert forall j :: 0 <= j < |kept| ==> kept[j] in kept;
        FilterCounts(todos, (t: Todo) => t.id != todoId);
        ReplaceList(s, k, s.lists[k].(todos := kept))
  }

  /** When only the todo at position `j` carries the id, deleting removes
      exactly that todo and keeps the others, repeats included, in order. */
  lemma DeleteTodoKeepsOrder(s: State, todoId: string, j: nat)
    requires |s.lists| > 0
    requires var todos := CurrentList(s).value.todos;
      j < |todos| && todos[j].id == todoId
      && forall i :: 0 <= i < |todos| && i != j ==> todos[i].id != todoId
    ensures var k := CurrentIndex(s).value;
      var todos := s.lists[k].todos;
      DeleteTodo(s, todoId).lists[k].todos == todos[..j] + todos[j + 1..]
  {
    var k := CurrentIndex(s).value;
    var todos := s.lists[k].todos;
    assert todoId in TodoIds(todos) by {
      assert TodoIds(todos)[j] == todoId;
    }
    DropUniqueTodo(todos, j, todoId);
  }

  /** Deleting an id the current list carries keeps exactly the other todos,
      in their order and with their repeats, even when several todos carry it. */
  lemma DeleteTodoFilters(s: State, todoId: string)
    requires |s.lists| > 0 && todoId in TodoIds(CurrentList(s).value.todos)
    ensures var k := CurrentIndex(s).value;
      DeleteTodo(s, todoId).lists[k].todos == Filter(s.lists[k].todos, (t: Todo) => t.id != todoId)
  {
  }

  /** Dropping the todos with the id that only position `j` carries removes
      exactly that todo. */
  lemma DropUniqueTodo(todos: seq<Todo>, j: nat, id: string)
    requires j < |todos| && todos[j].id == id
    requires forall i :: 0 <= i < |todos| && i != j ==> todos[i].id != id
    ensures Filter(todos, (t: Todo) => t.id != id) == todos[..j] + todos[j + 1..]
  {
    FilterDropsOne(todos, j, (t: Todo) => t.id != id);
  }

  /** Deleting the todo just added restores the state before the add. */
  lemma DeleteUndoesAdd(s: State, input: string, freshId: string)
    requires TodoIdUnused(s.lists, freshId)
    requires !AllWhitespace(input) && |s.lists| > 0
    ensures DeleteTodo(AddTodo(s, input, freshId), freshId) == s
  {
    var k := CurrentIndex(s).value;
    var a := AddTodo(s, input, freshId);
    var todos := s.lists[k].todos;
    DropAppended(todos, Todo(freshId, Trim(input), false));
    assert FindTodo(a.lists[k].todos, freshId).Some? by {
      assert TodoIds(a.lists[k].todos)[|todos|] == freshId;
    }
    assert a.lists[k].(todos := todos) == s.lists[k] by {
      assert a.lists[k].id == ListIds(a.lists)[k];
    }
    ReplaceBack(s, a, k);
  }

  /** Dropping the todos with the id of the one just appended leaves the todos
      that were there before. */
  lemma DropAppended(todos: seq<Todo>, t: Todo)
    requires t.id !in TodoIds(todos)
    ensures Filter(todos + [t], (x: Todo) => x.id != t.id) == todos
  {
    var keep := (x: Todo) => x.id != t.id;
    NotInTodoIds(todos, t.id);
    FilterKeepsAll(todos, keep);
    FilterAppend(todos, [t], keep);
    assert Filter([t], keep) == [];
  }

  /** Putting back the list a change replaced gives back the original state. */
  lemma ReplaceBack(s: State, a: State, k: nat)
    requires k < |s.lists| && |a.lists| == |s.lists| && a.activeListId == s.activeListId
    requires a.lists[k].id == s.lists[k].id
    requires forall i :: 0 <= i < |s.lists| && i != k ==> a.lists[i] == s.lists[i]
    ensures ReplaceList(a, k, s.lists[k]) == s
  {
    var r := ReplaceList(a, k, s.lists[k]);
    assert r.lists == s.lists;
  }

  /** Set done (the checkbox handler): the first todo of the current list with
      that id takes the checkbox value; everything else stays. */
  function SetDone(s: State, todoId: string, checked: bool): (r: State)
    ensures r.activeListId == s.activeListId
    ensures ListIds(r.lists) == ListIds(s.lists)
    ensures CurrentIndex(r) == CurrentIndex(s)
    ensures forall i :: 0 <= i < |s.lists| && Some(i) != CurrentIndex(s) ==> r.lists[i] == s.lists[i]
    ensures |s.lists| == 0 || todoId !in TodoIds(CurrentList(s).value.todos) ==> r == s
    ensures |s.lists| > 0 && todoId in TodoIds(CurrentList(s).value.todos) ==>
      var k := CurrentIndex(s).value;
      var j := FindTodo(s.lists[k].todos, todoId).value;
      && r.lists[k].name == s.lists[k].name
      && |r.lists[k].todos| == |s.lists[k].todos|
      && r.lists[k].todos[j] == s.lists[k].todos[j].(done := checked)
      && forall m :: 0 <= m < |s.lists[k].todos| && m != j ==> r.lists[k].todos[m] == s.lists[k].todos[m]
    ensures Valid(s) ==> Valid(r)
  {
    match CurrentIndex(s)
    case None => s
    case Some(k) =>
      var todos := s.lists[k].todos;
      match FindTodo(todos, todoId)
      case None => s
      case Some(j) => ReplaceList(s, k, s.lists[k].(todos := todos[j := todos[j].(done := checked)]))
  }

  /** Setting a todo's flag to the value it already has changes nothing. */
  lemma SetDoneUnchanged(s: State, todoId: string)
    requires |s.lists| > 0 && todoId in TodoIds(CurrentList(s).value.todos)
    ensures var l := CurrentList(s).value;
      SetDone(s, todoId, l.todos[FindTodo(l.todos, todoId).value].done) == s
  {
    var k := CurrentIndex(s).value;
    var l := s.lists[k];
    var j := FindTodo(l.todos, todoId).value;
    var r := SetDone(s, todoId, l.todos[j].done);
    assert r.lists[k].todos == l.todos;
    assert r.lists == s.lists;
  }

  /** Toggle done (the done button): flips the flag of the first todo of the
      current list with that id. */
  function ToggleDone(s: State, todoId: string): (r: State)
    ensures r.activeListId == s.activeListId
    ensures ListIds(r.lists) == ListIds(s.lists)
    ensures CurrentIndex(r) == CurrentIndex(s)
    ensures forall i :: 0 <= i < |s.lists| && Some(i) != CurrentIndex(s) ==> r.lists[i] == s.lists[i]
    ensures |s.lists| == 0 || todoId !in TodoIds(CurrentList(s).value.todos) ==> r == s
    ensures |s.lists| > 0 && todoId in TodoIds(CurrentList(s).value.todos) ==>
      var k := CurrentIndex(s).value;
      var j := FindTodo(s.lists[k].todos, todoId).value;
      && r.lists[k].name == s.lists[k].name
      && |r.lists[k].todos| == |s.lists[k].todos|
      && r.lists[k].todos[j] == s.lists[k].todos[j].(done := !s.lists[k].todos[j].done)
      && forall m :: 0 <= m < |s.lists[k].todos| && m != j ==> r.lists[k].todos[m] == s.lists[k].todos[m]
    ensures Valid(s) ==> Valid(r)
  {
    match CurrentIndex(s)
    case None => s
    case Some(k) =>
      var todos := s.lists[k].todos;
      match FindTodo(todos, todoId)
      case None => s
      case Some(j) => ReplaceList(s, k, s.lists[k].(todos := todos[j := todos[j].(done := !todos[j].done)]))
  }

  /** Toggling is setting the flag to the opposite of its current value. */
  lemma ToggleIsSetNegated(s: State, todoId: string)
    requires |s.lists| > 0 && todoId in TodoIds(CurrentList(s).value.todos)
    ensures var l := CurrentList(s).value;
      ToggleDone(s, todoId) == SetDone(s, todoId, !l.todos[FindTodo(l.todos, todoId).value].done)
  {
  }

  /** Toggling the same todo twice gives back the original state. */
  lemma ToggleTwice(s: State, todoId: string)
    ensures ToggleDone(ToggleDone(s, todoId), todoId) == s
  {
    var t := ToggleDone(s, todoId);
    if |s.lists| > 0 && todoId in TodoIds(CurrentList(s).value.todos) {
      var k := CurrentIndex(s).value;
      assert TodoIds(t.lists[k].todos) == TodoIds(s.lists[k].todos);
      var tt := ToggleDone(t, todoId);
      assert tt.lists[k].todos == s.lists[k].todos;
      assert tt.lists == s.lists;
    }
  }
}
