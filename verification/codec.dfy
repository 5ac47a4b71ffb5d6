/** The export/import format of app.js: `toCSV` writes a header row and one
    row per todo (one placeholder row per empty list); `fromCSV` reads the text
    back, locating the five columns by name and merging rows into lists keyed
    by `list_id` in first-occurrence order. */
module Codec {
  import opened Wrappers
  import opened Seqs
  import opened Strings
  import opened Csv
  import opened Model

  const Header: Row := ["list_id", "list_name", "todo_id", "todo_text", "done"]

  /** `String(!!t.done)`. */
  function DoneText(done: bool): string {
    if done then "true" else "false"
  }

  function TodoRow(l: TodoList, t: Todo): Row {
    [l.id, l.name, t.id, t.text, DoneText(t.done)]
  }

  function TodoRows(l: TodoList, todos: seq<Todo>): (rows: seq<Row>)
    ensures |rows| == |todos|
    ensures forall k :: 0 <= k < |todos| ==> rows[k] == TodoRow(l, todos[k])
  {
    seq(|todos|, k requires 0 <= k < |todos| => TodoRow(l, todos[k]))
  }

  /** The fields of a list or todo that the format cannot carry: a line break
      splits the row in two on reading (and a lone CR is not even quoted). */
  predicate NoBreak(x: string) {
    '\r' !in x && '\n' !in x
  }

  predicate RowClean(row: Row) {
    forall k :: 0 <= k < |row| ==> NoBreak(row[k])
  }

  predicate ListClean(l: TodoList) {
    && NoBreak(l.id) && NoBreak(l.name)
    && forall j :: 0 <= j < |l.todos| ==> NoBreak(l.todos[j].id) && NoBreak(l.todos[j].text)
  }

  function Max1(n: nat): nat {
    if n == 0 then 1 else n
  }

  /** The rows one list contributes: one per todo in order, or a single
      placeholder row `[id, name, "", "", ""]` when it has none. */
  function ListRows(l: TodoList): (rows: seq<Row>)
    ensures |rows| == Max1(|l.todos|)
    ensures |l.todos| == 0 ==> rows == [[l.id, l.name, "", "", ""]]
    ensures forall k :: 0 <= k < |l.todos| ==>
      rows[k] == [l.id, l.name, l.todos[k].id, l.todos[k].text, DoneText(l.todos[k].done)]
    ensures forall k :: 0 <= k < |rows| ==> |rows[k]| == 5 && rows[k][0] == l.id && rows[k][1] == l.name
    ensures ListClean(l) ==> forall k :: 0 <= k < |rows| ==> RowClean(rows[k])
  {
    if |l.todos| == 0 then [[l.id, l.name, "", "", ""]] else TodoRows(l, l.todos)
  }

  /** Total number of data rows: the sum over the lists of max(1, number of todos). */
  function RowCount(lists: seq<TodoList>): nat {
    if |lists| == 0 then 0 else Max1(|lists[0].todos|) + RowCount(lists[1..])
  }

  function DataRows(lists: seq<TodoList>): (rows: seq<Row>)
    ensures |rows| == RowCount(lists)
    ensures forall k :: 0 <= k < |rows| ==> |rows[k]| == 5
    ensures (forall i :: 0 <= i < |lists| ==> ListClean(lists[i])) ==>
      forall k :: 0 <= k < |rows| ==> RowClean(rows[k])
  {
    if |lists| == 0 then []
    else
      var head := ListRows(lists[0]);
      var rest := DataRows(lists[1..]);
      assert forall i :: 0 <= i < |lists[1..]| ==> lists[1..][i] == lists[i + 1];
      var rows := head + rest;
      assert forall k :: |head| <= k < |rows| ==> rows[k] == rest[k - |head|];
      rows
  }

  /** The rows `toCSV` writes before escaping. */
  function Rows(s: State): seq<Row> {
    [Header] + DataRows(s.lists)
  }

  function EncodeRows(rows: seq<Row>): (lines: seq<string>)
    ensures |lines| == |rows|
    ensures forall k :: 0 <= k < |rows| ==> lines[k] == EncodeRow(rows[k])
  {
    seq(|rows|, k requires 0 <= k < |rows| => EncodeRow(rows[k]))
  }

  /** `toCSV`: rows joined with LF (not CRLF), fields escaped and joined with commas. */
  function ToCsv(s: State): string {
    Join(EncodeRows(Rows(s)), '\n')
  }

  // ---------------------------------------------------------------- decoding

  datatype DecodeError = InvalidHeader

  function ErrorMessage(e: DecodeError): string {
    match e
    case InvalidHeader => "Invalid header"
  }

  /** Positions of the five columns in the header row. */
  datatype Columns = Columns(listId: nat, listName: nat, todoId: nat, todoText: nat, done: nat)

  predicate HasAllColumns(header: Row) {
    "list_id" in header && "list_name" in header && "todo_id" in header
    && "todo_text" in header && "done" in header
  }

  /** `name` first occurs in `header` at position `i`. */
  predicate FirstAt(header: Row, name: string, i: nat) {
    i < |header| && header[i] == name && forall k :: 0 <= k < i ==> header[k] != name
  }

  lemma FirstAtUnique(header: Row, name: string, i: nat, j: nat)
    requires FirstAt(header, name, i) && FirstAt(header, name, j)
    ensures i == j
  {
  }

  /** The `idx` object of `fromCSV`: each column is found by name, wherever it
      stands, and a missing one is an invalid header. */
  function LocateColumns(header: Row): (r: Result<Columns, DecodeError>)
    ensures r.Failure? <==> !HasAllColumns(header)
    ensures r.Failure? ==> r.error == InvalidHeader
    ensures r.Success? ==>
      && FirstAt(header, "list_id", r.value.listId)
      && FirstAt(header, "list_name", r.value.listName)
      && FirstAt(header, "todo_id", r.value.todoId)
      && FirstAt(header, "todo_text", r.value.todoText)
      && FirstAt(header, "done", r.value.done)
  {
    var a := IndexOf(header, "list_id");
    var b := IndexOf(header, "list_name");
    var c := IndexOf(header, "todo_id");
    var d := IndexOf(header, "todo_text");
    var e := IndexOf(header, "done");
    if a.Some? && b.Some? && c.Some? && d.Some? && e.Some? then
      Success(Columns(a.value, b.value, c.value, d.value, e.value))
    else Failure(InvalidHeader)
  }

  /** The non-blank lines of the text, after CRLF and CR are turned into LF:
      none is empty and none holds a line break. */
  function Lines(text: string): (r: seq<string>)
    ensures forall k :: 0 <= k < |r| ==> r[k] != [] && NoBreak(r[k])
  {
    var r := DropBlank(SplitOn(NormalizeNewlines(text), '\n'));
    LinesClean(text, r);
    r
  }

  lemma LinesClean(text: string, r: seq<string>)
    requires r == DropBlank(SplitOn(NormalizeNewlines(text), '\n'))
    ensures forall k :: 0 <= k < |r| ==> r[k] != [] && NoBreak(r[k])
  {
    var norm := NormalizeNewlines(text);
    var pieces := SplitOn(norm, '\n');
    forall k | 0 <= k < |r|
      ensures NoBreak(r[k])
    {
      assert r[k] in pieces;
      var m :| 0 <= m < |pieces| && pieces[m] == r[k];
      if '\r' in r[k] {
        JoinKeeps(pieces, '\n', m, '\r');
      }
    }
  }

  /** `lines.shift() || ''`: the first line, or the empty string when there is none. */
  function HeaderLine(lines: seq<string>): string {
    if |lines| > 0 then lines[0] else []
  }

  /** The lines left after `shift()`. */
  function DataLines(lines: seq<string>): seq<string> {
    if |lines| > 0 then lines[1..] else []
  }

  /** `shift()` takes the first line off and leaves the rest in order; on no
      lines it yields the empty header and no data. */
  lemma ShiftLines(lines: seq<string>)
    ensures |lines| > 0 ==> lines == [HeaderLine(lines)] + DataLines(lines)
    ensures |lines| == 0 ==> HeaderLine(lines) == [] && DataLines(lines) == []
    ensures |DataLines(lines)| == if |lines| > 0 then |lines| - 1 else 0
  {
  }

  /** `cols[i]`, where a missing column reads as `undefined` and so counts as blank. */
  function Field(cols: Row, i: nat): string {
    if i < |cols| then cols[i] else []
  }

  /** What one data row says once the fallbacks of `fromCSV` are applied;
      `next` counts the calls made so far to the id generator. */
  datatype Record = Record(listId: string, listName: string, todoId: string, todoText: string, done: bool, next: nat)

  /** The fallbacks of one row: a blank `list_id` draws a generated id, a blank
      `list_name` reads "Imported", a blank `todo_id` of a row that carries a
      todo draws a generated id, and `done` holds exactly when the field spells
      "true" in any letter case. */
  function Resolve(cols: Row, c: Columns, n: nat, gen: nat -> string): (rec: Record)
    ensures Field(cols, c.listId) != [] ==> rec.listId == Field(cols, c.listId)
    ensures Field(cols, c.listId) == [] ==> rec.listId == gen(n)
    ensures Field(cols, c.listName) != [] ==> rec.listName == Field(cols, c.listName)
    ensures Field(cols, c.listName) == [] ==> rec.listName == "Imported"
    ensures rec.todoText == Field(cols, c.todoText)
    ensures rec.todoText != [] && Field(cols, c.todoId) != [] ==> rec.todoId == Field(cols, c.todoId)
    ensures rec.done <==> SpellsTrue(Field(cols, c.done))
    ensures rec.next == n + (if Field(cols, c.listId) == [] then 1 else 0)
                          + (if rec.todoText != [] && Field(cols, c.todoId) == [] then 1 else 0)
    ensures rec.todoText != [] && Field(cols, c.todoId) == [] ==>
      rec.todoId == gen(rec.next - 1)
  {
    var rawId := Field(cols, c.listId);
    var lid := if rawId != [] then rawId else gen(n);
    var n1 := if rawId != [] then n else n + 1;
    var lname := if Field(cols, c.listName) != [] then Field(cols, c.listName) else "Imported";
    var text := Field(cols, c.todoText);
    var rawTid := Field(cols, c.todoId);
    var tid := if rawTid != [] then rawTid else if text != [] then gen(n1) else [];
    var n2 := if text != [] && rawTid == [] then n1 + 1 else n1;
    var doneField := Field(cols, c.done);
    LowerIsTrueIff(doneField);
    Record(lid, lname, tid, text, ToLowerAscii(doneField) == "true", n2)
  }

  /** The todos of the list with that id, none when no such list exists. */
  function TodosOf(lists: seq<TodoList>, id: string): seq<Todo> {
    match FindList(lists, id)
    case Some(k) => lists[k].todos
    case None => []
  }

  /** `map[lid].todos.push(t)`. */
  function AppendTodo(lists: seq<TodoList>, id: string, t: Todo): (r: seq<TodoList>)
    ensures |r| == |lists| && ListIds(r) == ListIds(lists)
    ensures forall i :: 0 <= i < |lists| ==>
      r[i].id == lists[i].id && r[i].name == lists[i].name && lists[i].todos <= r[i].todos
    ensures forall i :: 0 <= i < |lists| && Some(i) != FindList(lists, id) ==> r[i] == lists[i]
    ensures FindList(lists, id).Some? ==>
      r[FindList(lists, id).value].todos == lists[FindList(lists, id).value].todos + [t]
  {
    match FindList(lists, id)
    case None => lists
    case Some(k) =>
      var r := lists[k := lists[k].(todos := lists[k].todos + [t])];
      assert ListIds(r) == ListIds(lists);
      r
  }

  /** What the decoder guarantees of the lists it builds: unique ids, no blank
      name, no todo with blank text. */
  predicate Decoded(lists: seq<TodoList>) {
    && DistinctListIds(lists)
    && (forall i :: 0 <= i < |lists| ==> lists[i].name != [])
    && (forall i, j :: 0 <= i < |lists| && 0 <= j < |lists[i].todos| ==> lists[i].todos[j].text != [])
  }

  /** `if (!map[lid]) map[lid] = { id: lid, name: lname, todos: [] }`: the
      list with that id, created at the end when there is none yet. */
  function EnsureList(lists: seq<TodoList>, id: string, name: string): (r: seq<TodoList>)
    ensures FindList(r, id).Some?
    ensures |r| == |lists| + (if id in ListIds(lists) then 0 else 1)
    ensures forall i :: 0 <= i < |lists| ==> r[i] == lists[i]
    ensures id !in ListIds(lists) ==> r[|lists|] == TodoList(id, name, [])
    ensures TodosOf(r, id) == TodosOf(lists, id)
    ensures DistinctListIds(lists) ==> DistinctListIds(r)
  {
    if FindList(lists, id).None? then
      FindAppended(lists, TodoList(id, name, []));
      lists + [TodoList(id, name, [])]
    else lists
  }

  /** Merging one row into the lists built so far: the first row with a given
      id creates the list (and fixes its name); a row whose `todo_text` is blank
      adds no todo; otherwise the row's todo goes at the end of that list. */
  function Merge(lists: seq<TodoList>, rec: Record): (r: seq<TodoList>)
    ensures |r| == |lists| + (if rec.listId in ListIds(lists) then 0 else 1)
    ensures forall i :: 0 <= i < |lists| ==>
      r[i].id == lists[i].id && r[i].name == lists[i].name && lists[i].todos <= r[i].todos
    ensures forall i :: 0 <= i < |lists| && lists[i].id != rec.listId ==> r[i] == lists[i]
    ensures rec.listId !in ListIds(lists) ==>
      r[|lists|].id == rec.listId && r[|lists|].name == rec.listName
  {
    var base := EnsureList(lists, rec.listId, rec.listName);
    if rec.todoText == [] then base
    else
      var r := AppendTodo(base, rec.listId, Todo(rec.todoId, rec.todoText, rec.done));
      assert forall i :: 0 <= i < |r| ==> r[i].id == base[i].id;
      r
  }

  /** The row's todo, if it carries one, goes at the end of its list's todos. */
  lemma MergeTodos(lists: seq<TodoList>, rec: Record)
    ensures TodosOf(Merge(lists, rec), rec.listId) ==
      TodosOf(lists, rec.listId) + (if rec.todoText == [] then [] else [Todo(rec.todoId, rec.todoText, rec.done)])
  {
    var base := EnsureList(lists, rec.listId, rec.listName);
    if rec.todoText != [] {
      var r := AppendTodo(base, rec.listId, Todo(rec.todoId, rec.todoText, rec.done));
      assert FindList(r, rec.listId) == FindList(base, rec.listId);
    }
  }

  /** A merge keeps ids unique, names non-blank and todo texts non-blank, as
      long as the row's resolved name is not blank. */
  lemma MergeDecoded(lists: seq<TodoList>, rec: Record)
    requires Decoded(lists) && rec.listName != []
    ensures Decoded(Merge(lists, rec))
  {
    var base := EnsureList(lists, rec.listId, rec.listName);
    if rec.todoText != [] {
      var r := AppendTodo(base, rec.listId, Todo(rec.todoId, rec.todoText, rec.done));
      assert forall i :: 0 <= i < |r| ==> r[i].id == base[i].id by {
        assert forall i :: 0 <= i < |r| ==> r[i].id == ListIds(r)[i] && base[i].id == ListIds(base)[i];
      }
    }
  }

  /** Accumulator of the row loop: lists in first-occurrence order and the
      number of generated ids used so far. */
  datatype Acc = Acc(lists: seq<TodoList>, next: nat)

  function ApplyRow(acc: Acc, cols: Row, c: Columns, gen: nat -> string): Acc {
    var rec := Resolve(cols, c, acc.next, gen);
    Acc(Merge(acc.lists, rec), rec.next)
  }

  function Step(c: Columns, gen: nat -> string): (Acc, Row) -> Acc {
    (acc: Acc, cols: Row) => ApplyRow(acc, cols, c, gen)
  }

  /** The `for (const line of lines)` loop over already tokenized rows. */
  function ApplyRows(acc: Acc, rows: seq<Row>, c: Columns, gen: nat -> string): Acc {
    FoldLeft(acc, rows, Step(c, gen))
  }

  function Tokenize(lines: seq<string>): (rows: seq<Row>)
    ensures |rows| == |lines|
    ensures forall k :: 0 <= k < |lines| ==> rows[k] == SplitLine(lines[k])
  {
    seq(|lines|, k requires 0 <= k < |lines| => SplitLine(lines[k]))
  }

  /** `activeListId: lists[0]?.id || null`. */
  function FirstId(lists: seq<TodoList>): (r: Option<string>)
    ensures r.Some? <==> |lists| > 0 && lists[0].id != []
    ensures r.Some? ==> r.value == lists[0].id
  {
    if |lists| > 0 && lists[0].id != [] then Some(lists[0].id) else None
  }

  /** `fromCSV`, with `uid()` replaced by the generator `gen` (its n-th call
      yields `gen(n)`). */
  function FromCsv(text: string, gen: nat -> string): (r: Result<State, DecodeError>)
    ensures r.Failure? <==> !HasAllColumns(SplitLine(HeaderLine(Lines(text))))
    ensures r.Failure? ==> r.error == InvalidHeader
    ensures r.Success? ==> Decoded(r.value.lists)
    ensures r.Success? && |r.value.lists| > 0 && r.value.lists[0].id != [] ==>
      r.value.activeListId == Some(r.value.lists[0].id)
    ensures r.Success? && |r.value.lists| == 0 ==> r.value.activeListId == None
  {
    var lines := Lines(text);
    match LocateColumns(SplitLine(HeaderLine(lines)))
    case Failure(e) => Failure(e)
    case Success(c) =>
      var acc := ApplyRows(Acc([], 0), Tokenize(DataLines(lines)), c, gen);
      ApplyRowsDecoded(Acc([], 0), Tokenize(DataLines(lines)), c, gen);
      Success(State(acc.lists, FirstId(acc.lists)))
  }

  /** `fromCSV` in terms of the columns its header gives and the rows its
      other lines split into. */
  lemma FromCsvParts(text: string, gen: nat -> string, c: Columns, rows: seq<Row>)
    requires LocateColumns(SplitLine(HeaderLine(Lines(text)))) == Success(c)
    requires Tokenize(DataLines(Lines(text))) == rows
    ensures FromCsv(text, gen) ==
      var acc := ApplyRows(Acc([], 0), rows, c, gen); Success(State(acc.lists, FirstId(acc.lists)))
  {
  }

  /** A decoded text holds no list exactly when it has no line after the header. */
  lemma FromCsvNoLists(text: string, gen: nat -> string)
    requires FromCsv(text, gen).Success?
    ensures |FromCsv(text, gen).value.lists| == 0 <==> |Lines(text)| <= 1
  {
    var lines := Lines(text);
    var c := LocateColumns(SplitLine(HeaderLine(lines))).value;
    var rows := Tokenize(DataLines(lines));
    FromCsvParts(text, gen, c, rows);
    ShiftLines(lines);
    ApplyRowsNonEmpty(rows, c, gen);
  }

  /** Starting from nothing, the loop builds a list exactly when there is a row. */
  lemma ApplyRowsNonEmpty(rows: seq<Row>, c: Columns, gen: nat -> string)
    ensures |ApplyRows(Acc([], 0), rows, c, gen).lists| == 0 <==> |rows| == 0
  {
    if |rows| > 0 {
      var a0 := Acc([], 0);
      ApplyRowsAppend(a0, [rows[0]], rows[1..], c, gen);
      assert [rows[0]] + rows[1..] == rows;
      ApplyRowsOne(a0, rows[0], c, gen);
      var a1 := ApplyRow(a0, rows[0], c, gen);
      assert |a1.lists| == 1;
      ApplyRowsExtends(a1, rows[1..], c, gen);
    }
  }

  /** The loop over a single row is one step. */
  lemma ApplyRowsOne(acc: Acc, row: Row, c: Columns, gen: nat -> string)
    ensures ApplyRows(acc, [row], c, gen) == ApplyRow(acc, row, c, gen)
  {
    assert [row][1..] == [];
    assert FoldLeft(acc, [row], Step(c, gen)) == FoldLeft(Step(c, gen)(acc, row), [], Step(c, gen));
  }

  /** The decoder's guarantees hold after every row. */
  lemma {:induction false} ApplyRowsDecoded(acc: Acc, rows: seq<Row>, c: Columns, gen: nat -> string)
    requires Decoded(acc.lists)
    ensures Decoded(ApplyRows(acc, rows, c, gen).lists)
    decreases |rows|
  {
    if |rows| > 0 {
      MergeDecoded(acc.lists, Resolve(rows[0], c, acc.next, gen));
      ApplyRowsDecoded(ApplyRow(acc, rows[0], c, gen), rows[1..], c, gen);
    }
  }

  /** Later rows never rename or drop a list already built: ids and names stay,
      todos are only appended to, and new lists only appear at the end. */
  lemma {:induction false} ApplyRowsExtends(acc: Acc, rows: seq<Row>, c: Columns, gen: nat -> string)
    ensures var r := ApplyRows(acc, rows, c, gen);
      && |r.lists| >= |acc.lists|
      && forall i :: 0 <= i < |acc.lists| ==>
           && r.lists[i].id == acc.lists[i].id
           && r.lists[i].name == acc.lists[i].name
           && acc.lists[i].todos <= r.lists[i].todos
    decreases |rows|
  {
    if |rows| > 0 {
      var a1 := ApplyRow(acc, rows[0], c, gen);
      ApplyRowsExtends(a1, rows[1..], c, gen);
      var r := ApplyRows(acc, rows, c, gen);
      forall i | 0 <= i < |acc.lists|
        ensures acc.lists[i].todos <= r.lists[i].todos
      {
        PrefixTrans(acc.lists[i].todos, a1.lists[i].todos, r.lists[i].todos);
      }
    }
  }

  lemma PrefixTrans(a: seq<Todo>, b: seq<Todo>, c: seq<Todo>)
    requires a <= b && b <= c
    ensures a <= c
  {
    assert c[..|a|] == b[..|a|];
  }

  lemma ApplyRowsAppend(acc: Acc, a: seq<Row>, b: seq<Row>, c: Columns, gen: nat -> string)
    ensures ApplyRows(acc, a + b, c, gen) == ApplyRows(ApplyRows(acc, a, c, gen), b, c, gen)
  {
    FoldLeftAppend(acc, a, b, Step(c, gen));
  }

  /** A text with no content but line breaks (in particular the empty text)
      has the header `[""]` and is rejected as an invalid header. */
  lemma BlankTextInvalidHeader(text: string, gen: nat -> string)
    requires forall k :: 0 <= k < |text| ==> text[k] == '\r' || text[k] == '\n'
    ensures FromCsv(text, gen) == Failure(InvalidHeader)
  {
    var norm := NormalizeNewlines(text);
    assert forall ch :: ch in norm ==> ch == '\n';
    var pieces := SplitOn(norm, '\n');
    forall k | 0 <= k < |pieces|
      ensures pieces[k] == []
    {
      if pieces[k] != [] {
        JoinKeeps(pieces, '\n', k, pieces[k][0]);
      }
    }
    assert Lines(text) == [];
    assert SplitLine([]) == [[]];
  }
}
