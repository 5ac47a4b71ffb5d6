/** A worked session: a fresh collection, one todo ("buy milk", say) added
    and ticked, then exported and read back. `mainId` and `todoId` stand for
    the two ids `uid()` hands out; any pair of plain ids will do. */
module Scenario {
  import opened Wrappers
  import opened Strings
  import opened Csv
  import opened Model
  import opened Mutators
  import opened Codec
  import opened RoundTrip

  /** An id `toCSV` writes bare and `fromCSV` reads back. */
  predicate PlainId(id: string) {
    id != [] && !NeedsQuoting(id) && NoBreak(id)
  }

  function WithTodo(mainId: string, todoId: string, text: string, done: bool): State {
    State([TodoList(mainId, "Main", [Todo(todoId, text, done)])], Some(mainId))
  }

  /** A todo text that the add-todo handler keeps as typed and `toCSV` writes bare. */
  predicate PlainText(text: string) {
    text != [] && !IsWhitespace(text[0]) && !IsWhitespace(text[|text| - 1]) && !NeedsQuoting(text) && NoBreak(text)
  }

  /** `initState()`, then `addTodo(text)`, then the done button. */
  function Session(mainId: string, todoId: string, text: string): State {
    ToggleDone(AddTodo(InitState(mainId), text, todoId), todoId)
  }

  lemma OneList(l: TodoList)
    ensures DistinctListIds([l]) && ListIds([l]) == [l.id]
  {
  }

  lemma MainPlain()
    ensures NoBreak("Main") && !NeedsQuoting("Main") && !NeedsQuoting("true")
  {
  }

  lemma AddStep(mainId: string, todoId: string, text: string)
    requires PlainText(text)
    ensures AddTodo(InitState(mainId), text, todoId) == WithTodo(mainId, todoId, text, false)
  {
    var s := InitState(mainId);
    TrimKeeps(text);
    OneList(s.lists[0]);
    CurrentListUnique(s, 0);
    assert TodoIds(s.lists[0].todos) == [];
    var r := AddTodo(s, text, todoId);
    assert ListIds(r.lists) == [mainId];
    assert r.lists[0] == WithTodo(mainId, todoId, text, false).lists[0];
  }

  lemma TickStep(mainId: string, todoId: string, text: string)
    ensures ToggleDone(WithTodo(mainId, todoId, text, false), todoId) == WithTodo(mainId, todoId, text, true)
  {
    var s := WithTodo(mainId, todoId, text, false);
    OneList(s.lists[0]);
    CurrentListUnique(s, 0);
    assert TodoIds(s.lists[0].todos) == [todoId];
    var r := ToggleDone(s, todoId);
    assert ListIds(r.lists) == [mainId];
    assert r.lists[0] == WithTodo(mainId, todoId, text, true).lists[0];
  }

  /** After the session the only list is "Main" holding one ticked todo. */
  lemma SessionState(mainId: string, todoId: string, text: string)
    requires PlainText(text)
    ensures Session(mainId, todoId, text) == WithTodo(mainId, todoId, text, true)
  {
    AddStep(mainId, todoId, text);
    TickStep(mainId, todoId, text);
  }

  /** The session's collection is one the format can carry. */
  lemma SessionExportable(mainId: string, todoId: string, text: string)
    requires PlainId(mainId) && PlainId(todoId) && PlainText(text)
    ensures Exportable(WithTodo(mainId, todoId, text, true))
  {
    var s := WithTodo(mainId, todoId, text, true);
    OneList(s.lists[0]);
    MainPlain();
    assert ListClean(s.lists[0]);
  }

  /** Its only data row needs no quoting. */
  lemma SessionRowBare(mainId: string, todoId: string, text: string)
    requires PlainId(mainId) && PlainId(todoId) && PlainText(text)
    ensures EscapeAll([mainId, "Main", todoId, text, "true"]) == [mainId, "Main", todoId, text, "true"]
  {
    var row := [mainId, "Main", todoId, text, "true"];
    MainPlain();
    assert forall k :: 0 <= k < |row| ==> !NeedsQuoting(row[k]) by {
      assert row[0] == mainId && row[1] == "Main" && row[2] == todoId && row[3] == text && row[4] == "true";
    }
    EscapeAllBare(row);
  }

  /** `toCSV` writes the header row and the todo's row. */
  lemma SessionRows(mainId: string, todoId: string, text: string)
    ensures Rows(WithTodo(mainId, todoId, text, true)) == [Header, [mainId, "Main", todoId, text, "true"]]
  {
  }

  /** The export's lines are the encodings of the header and of the todo's row. */
  lemma SessionLines(mainId: string, todoId: string, text: string)
    requires PlainId(mainId) && PlainId(todoId) && PlainText(text)
    ensures Lines(ToCsv(WithTodo(mainId, todoId, text, true))) == EncodeRows([Header, [mainId, "Main", todoId, text, "true"]])
  {
    SessionExportable(mainId, todoId, text);
    SessionRows(mainId, todoId, text);
    ToCsvLines(WithTodo(mainId, todoId, text, true));
  }

  lemma SessionLinesText(mainId: string, todoId: string, text: string)
    requires PlainId(mainId) && PlainId(todoId) && PlainText(text)
    ensures EncodeRows([Header, [mainId, "Main", todoId, text, "true"]]) == [HeaderText, Join([mainId, "Main", todoId, text, "true"], ',')]
  {
    HeaderEncoding();
    SessionRowBare(mainId, todoId, text);
    EncodeTwo(Header, [mainId, "Main", todoId, text, "true"], HeaderText);
  }

  lemma EncodeTwo(h: Row, row: Row, text: string)
    requires EncodeRow(h) == text && EscapeAll(row) == row
    ensures EncodeRows([h, row]) == [text, Join(row, ',')]
  {
  }

  /** The export has two lines: the header and the comma-join of the todo's
      five fields, "true" last. */
  lemma SessionExport(mainId: string, todoId: string, text: string)
    requires PlainId(mainId) && PlainId(todoId) && PlainText(text)
    ensures Lines(ToCsv(Session(mainId, todoId, text))) == [HeaderText, Join([mainId, "Main", todoId, text, "true"], ',')]
  {
    SessionState(mainId, todoId, text);
    SessionLines(mainId, todoId, text);
    SessionLinesText(mainId, todoId, text);
  }

  /** Reading the export back gives the same list and todo, ticked. */
  lemma SessionImport(mainId: string, todoId: string, text: string, gen: nat -> string)
    requires PlainId(mainId) && PlainId(todoId) && PlainText(text)
    ensures FromCsv(ToCsv(Session(mainId, todoId, text)), gen) == Success(WithTodo(mainId, todoId, text, true))
  {
    SessionState(mainId, todoId, text);
    SessionExportable(mainId, todoId, text);
    CodecRoundTrip(WithTodo(mainId, todoId, text, true), gen);
  }
}
