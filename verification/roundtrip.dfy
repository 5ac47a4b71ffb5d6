/** Reading back what `toCSV` wrote. The format can only carry a collection
    whose ids, names and todo texts are non-empty (a blank field falls back to
    a generated id, "Imported", or no todo at all), hold no line break, and whose
    list ids are distinct (rows with a repeated id are merged). For such a
    collection `fromCSV(toCSV(s))` gives back every list, in order, with its
    id, name and todos, and makes the first list active. */
module RoundTrip {
  import opened Wrappers
  import opened Seqs
  import opened Strings
  import opened Csv
  import opened Model
  import opened Codec

  predicate ListExportable(l: TodoList) {
    && l.id != [] && l.name != [] && ListClean(l)
    && forall j :: 0 <= j < |l.todos| ==> l.todos[j].id != [] && l.todos[j].text != []
  }

  predicate Exportable(s: State) {
    && DistinctListIds(s.lists)
    && forall i :: 0 <= i < |s.lists| ==> ListExportable(s.lists[i])
  }

  /** `list_id,list_name,todo_id,todo_text,done`. */
  const HeaderText: string := "list_id" + "," + "list_name" + "," + "todo_id" + "," + "todo_text" + "," + "done"

  lemma HeaderNamesBare()
    ensures forall k :: 0 <= k < |Header| ==> !NeedsQuoting(Header[k]) && NoBreak(Header[k])
  {
    assert !NeedsQuoting("list_id") && !NeedsQuoting("list_name") && !NeedsQuoting("todo_id")
      && !NeedsQuoting("todo_text") && !NeedsQuoting("done");
  }

  lemma HeaderJoin()
    ensures Join(Header, ',') == HeaderText
  {
    JoinCons("todo_text", ["done"], ',');
    JoinCons("todo_id", ["todo_text", "done"], ',');
    JoinCons("list_name", ["todo_id", "todo_text", "done"], ',');
    JoinCons("list_id", ["list_name", "todo_id", "todo_text", "done"], ',');
    assert Join(["done"], ',') == "done";
    JoinFive("list_id", "list_name", "todo_id", "todo_text", "done", ',');
  }

  lemma JoinFive(a: string, b: string, c: string, d: string, e: string, sep: char)
    ensures a + [sep] + (b + [sep] + (c + [sep] + (d + [sep] + e))) ==
      a + [sep] + b + [sep] + c + [sep] + d + [sep] + e
  {
  }

  /** The header row is written as `list_id,list_name,todo_id,todo_text,done`. */
  lemma HeaderEncoding()
    ensures EncodeRow(Header) == HeaderText
    ensures RowClean(Header)
  {
    HeaderNamesBare();
    var e := EscapeAll(Header);
    assert e[0] == Header[0] && e[1] == Header[1] && e[2] == Header[2] && e[3] == Header[3] && e[4] == Header[4];
    assert e == Header;
    HeaderJoin();
  }

  lemma RowsShape(s: State)
    requires forall i :: 0 <= i < |s.lists| ==> ListClean(s.lists[i])
    ensures forall k :: 0 <= k < |Rows(s)| ==> |Rows(s)[k]| == 5 && RowClean(Rows(s)[k])
  {
    HeaderNamesBare();
    var data := DataRows(s.lists);
    var rows := Rows(s);
    assert RowClean(Header);
    assert rows == [Header] + data;
    forall k | 0 <= k < |rows|
      ensures |rows[k]| == 5 && RowClean(rows[k])
    {
      if k > 0 {
        assert rows[k] == data[k - 1];
      }
    }
  }

  lemma EncodedLinesClean(rows: seq<Row>)
    requires forall k :: 0 <= k < |rows| ==> |rows[k]| == 5 && RowClean(rows[k])
    ensures forall k :: 0 <= k < |rows| ==>
      var line := EncodeRows(rows)[k]; '\r' !in line && '\n' !in line && line != []
  {
    forall k | 0 <= k < |rows|
      ensures var line := EncodeRows(rows)[k]; '\r' !in line && '\n' !in line && line != []
    {
      EncodeRowNoBreaks(rows[k]);
      EncodeRowNonEmpty(rows[k]);
    }
  }

  /** The exported text consists of exactly the header line and one line per
      data row: 1 + the sum over the lists of max(1, number of todos). */
  lemma ToCsvLines(s: State)
    requires forall i :: 0 <= i < |s.lists| ==> ListClean(s.lists[i])
    ensures Lines(ToCsv(s)) == EncodeRows(Rows(s))
    ensures |Lines(ToCsv(s))| == 1 + RowCount(s.lists)
    ensures Lines(ToCsv(s))[0] == HeaderText
  {
    var rows := Rows(s);
    var lines := EncodeRows(rows);
    RowsShape(s);
    EncodedLinesClean(rows);
    JoinAvoids(lines, '\n', '\r');
    SplitOnJoin(lines, '\n');
    HeaderEncoding();
  }

  /** Every export starts with the header line, and is nothing more exactly
      when there is no list. */
  lemma ToCsvStartsWithHeader(s: State)
    ensures HeaderText <= ToCsv(s)
    ensures ToCsv(s) == HeaderText <==> |s.lists| == 0
  {
    var lines := EncodeRows(Rows(s));
    HeaderEncoding();
    assert lines[0] == HeaderText;
    RowCountZero(s.lists);
    JoinStartsWithFirst(lines, '\n');
  }

  lemma RowCountZero(lists: seq<TodoList>)
    ensures RowCount(lists) == 0 <==> |lists| == 0
  {
  }

  lemma HeaderColumns()
    ensures LocateColumns(Header) == Success(Columns(0, 1, 2, 3, 4))
  {
    var h := Header;
    assert |h[0]| == 7 && |h[1]| == 9 && |h[2]| == 7 && |h[3]| == 9 && |h[4]| == 4;
    assert h[0][0] == 'l' && h[2][0] == 't';
    assert FirstAt(h, "list_id", 0);
    assert FirstAt(h, "list_name", 1);
    assert FirstAt(h, "todo_id", 2);
    assert FirstAt(h, "todo_text", 3);
    assert FirstAt(h, "done", 4);
    var r := LocateColumns(h);
    FirstAtUnique(h, "list_id", 0, r.value.listId);
    FirstAtUnique(h, "list_name", 1, r.value.listName);
    FirstAtUnique(h, "todo_id", 2, r.value.todoId);
    FirstAtUnique(h, "todo_text", 3, r.value.todoText);
    FirstAtUnique(h, "done", 4, r.value.done);
  }

  lemma DoneTextSpells(b: bool)
    ensures SpellsTrue(DoneText(b)) <==> b
  {
  }

  /** A row with a todo for the last list built appends the todo to it. */
  lemma MergeExtends(pre: seq<TodoList>, l: TodoList, rec: Record)
    requires rec.listId == l.id && l.id !in ListIds(pre)
    requires rec.todoText != []
    ensures Merge(pre + [l], rec) == pre + [l.(todos := l.todos + [Todo(rec.todoId, rec.todoText, rec.done)])]
  {
    var lists := pre + [l];
    FindAppended(pre, l);
    var r := Merge(lists, rec);
    MergeTodos(lists, rec);
    assert ListIds(r) == ListIds(lists);
    assert r[|pre|] == l.(todos := l.todos + [Todo(rec.todoId, rec.todoText, rec.done)]);
  }

  /** One todo row merged into its own list, which is the last one built. */
  lemma DecodeTodoRow(pre: seq<TodoList>, l: TodoList, ts: seq<Todo>, t: Todo, n: nat, gen: nat -> string)
    requires l.id !in ListIds(pre)
    requires l.id != [] && l.name != [] && t.id != [] && t.text != []
    ensures ApplyRow(Acc(pre + [TodoList(l.id, l.name, ts)], n), TodoRow(l, t), Columns(0, 1, 2, 3, 4), gen)
         == Acc(pre + [TodoList(l.id, l.name, ts + [t])], n)
  {
    var rec := Resolve(TodoRow(l, t), Columns(0, 1, 2, 3, 4), n, gen);
    DoneTextSpells(t.done);
    assert rec == Record(l.id, l.name, t.id, t.text, t.done, n);
    MergeExtends(pre, TodoList(l.id, l.name, ts), rec);
  }

  /** A row with a todo and an id not seen before creates a list holding it. */
  lemma MergeCreates(pre: seq<TodoList>, rec: Record)
    requires rec.listId !in ListIds(pre)
    requires rec.todoText != []
    ensures Merge(pre, rec) == pre + [TodoList(rec.listId, rec.listName, [Todo(rec.todoId, rec.todoText, rec.done)])]
  {
    FindAppended(pre, TodoList(rec.listId, rec.listName, []));
    var m := Merge(pre, rec);
    MergeTodos(pre, rec);
    assert ListIds(m) == ListIds(pre + [TodoList(rec.listId, rec.listName, [])]);
    assert m[|pre|] == TodoList(rec.listId, rec.listName, [Todo(rec.todoId, rec.todoText, rec.done)]);
  }

  /** The first row of a list creates it, with the row's todo. */
  lemma DecodeFirstRow(pre: seq<TodoList>, l: TodoList, t: Todo, n: nat, gen: nat -> string)
    requires l.id !in ListIds(pre)
    requires l.id != [] && l.name != [] && t.id != [] && t.text != []
    ensures ApplyRow(Acc(pre, n), TodoRow(l, t), Columns(0, 1, 2, 3, 4), gen)
         == Acc(pre + [TodoList(l.id, l.name, [t])], n)
  {
    var rec := Resolve(TodoRow(l, t), Columns(0, 1, 2, 3, 4), n, gen);
    DoneTextSpells(t.done);
    assert rec == Record(l.id, l.name, t.id, t.text, t.done, n);
    MergeCreates(pre, rec);
  }

  /** The placeholder row of an empty list creates it with no todo. */
  lemma DecodePlaceholderRow(pre: seq<TodoList>, l: TodoList, n: nat, gen: nat -> string)
    requires l.id !in ListIds(pre)
    requires l.id != [] && l.name != []
    ensures ApplyRow(Acc(pre, n), [l.id, l.name, "", "", ""], Columns(0, 1, 2, 3, 4), gen)
         == Acc(pre + [TodoList(l.id, l.name, [])], n)
  {
    var rec := Resolve([l.id, l.name, "", "", ""], Columns(0, 1, 2, 3, 4), n, gen);
    assert rec.listId == l.id && rec.listName == l.name && rec.todoText == [] && rec.next == n;
    FindAppended(pre, TodoList(l.id, l.name, []));
  }

  /** What the row loop holds after the first `k` rows of a non-empty list. */
  function ListAcc(pre: seq<TodoList>, l: TodoList, n: nat, k: nat): Acc
    requires k <= |l.todos|
  {
    if k == 0 then Acc(pre, n) else Acc(pre + [TodoList(l.id, l.name, l.todos[..k])], n)
  }

  lemma ListRowStep(pre: seq<TodoList>, l: TodoList, n: nat, gen: nat -> string, k: nat)
    requires l.id !in ListIds(pre)
    requires ListExportable(l)
    requires k < |l.todos|
    ensures Step(Columns(0, 1, 2, 3, 4), gen)(ListAcc(pre, l, n, k), ListRows(l)[k]) == ListAcc(pre, l, n, k + 1)
  {
    assert ListRows(l)[k] == TodoRow(l, l.todos[k]);
    ListRowApply(pre, l, n, gen, k);
  }

  /** Row `k` of a list with todos adds its `k`-th todo. */
  lemma ListRowApply(pre: seq<TodoList>, l: TodoList, n: nat, gen: nat -> string, k: nat)
    requires l.id !in ListIds(pre)
    requires ListExportable(l)
    requires k < |l.todos|
    ensures ApplyRow(ListAcc(pre, l, n, k), TodoRow(l, l.todos[k]), Columns(0, 1, 2, 3, 4), gen) == ListAcc(pre, l, n, k + 1)
  {
    var todos := l.todos;
    TakeNext(todos, k);
    if k == 0 {
      assert todos[..0] + [todos[0]] == [todos[0]];
      DecodeFirstRow(pre, l, todos[0], n, gen);
    } else {
      DecodeTodoRow(pre, l, todos[..k], todos[k], n, gen);
    }
  }

  /** The values the row loop passes through on the rows of a non-empty list. */
  function ListAccs(pre: seq<TodoList>, l: TodoList, n: nat): (accs: seq<Acc>)
    ensures |accs| == |l.todos| + 1
    ensures accs[0] == Acc(pre, n)
    ensures |l.todos| > 0 ==> accs[|l.todos|] == Acc(pre + [l], n)
  {
    assert l.todos[..|l.todos|] == l.todos;
    seq(|l.todos| + 1, k requires 0 <= k <= |l.todos| => ListAcc(pre, l, n, k))
  }

  lemma ListSteps(pre: seq<TodoList>, l: TodoList, n: nat, gen: nat -> string)
    requires l.id !in ListIds(pre)
    requires ListExportable(l)
    requires |l.todos| > 0
    ensures StepsHold(ListAccs(pre, l, n), ListRows(l), Step(Columns(0, 1, 2, 3, 4), gen))
  {
    var accs := ListAccs(pre, l, n);
    forall k | 0 <= k < |l.todos|
      ensures Step(Columns(0, 1, 2, 3, 4), gen)(accs[k], ListRows(l)[k]) == accs[k + 1]
    {
      ListRowStep(pre, l, n, gen, k);
    }
  }

  /** The rows of a list with todos rebuild it, one row per todo. */
  lemma DecodeFilledList(pre: seq<TodoList>, l: TodoList, n: nat, gen: nat -> string)
    requires l.id !in ListIds(pre)
    requires ListExportable(l)
    requires |l.todos| > 0
    ensures ApplyRows(Acc(pre, n), ListRows(l), Columns(0, 1, 2, 3, 4), gen) == Acc(pre + [l], n)
  {
    ListSteps(pre, l, n, gen);
    FoldLeftSteps(ListAccs(pre, l, n), ListRows(l), Step(Columns(0, 1, 2, 3, 4), gen));
  }

  /** The rows of one list rebuild exactly that list after the ones before it. */
  lemma DecodeListRows(pre: seq<TodoList>, l: TodoList, n: nat, gen: nat -> string)
    requires l.id !in ListIds(pre)
    requires ListExportable(l)
    ensures ApplyRows(Acc(pre, n), ListRows(l), Columns(0, 1, 2, 3, 4), gen) == Acc(pre + [l], n)
  {
    if |l.todos| == 0 {
      DecodePlaceholderRow(pre, l, n, gen);
      var f := Step(Columns(0, 1, 2, 3, 4), gen);
      assert StepsHold([Acc(pre, n), Acc(pre + [l], n)], ListRows(l), f);
      FoldLeftSteps([Acc(pre, n), Acc(pre + [l], n)], ListRows(l), f);
    } else {
      DecodeFilledList(pre, l, n, gen);
    }
  }

  /** The rows of the first list rebuild it; the rest start from there. */
  lemma DecodeNextList(pre: seq<TodoList>, lists: seq<TodoList>, n: nat, gen: nat -> string)
    requires |lists| > 0
    requires lists[0].id !in ListIds(pre)
    requires ListExportable(lists[0])
    ensures ApplyRows(Acc(pre, n), DataRows(lists), Columns(0, 1, 2, 3, 4), gen)
         == ApplyRows(Acc(pre + [lists[0]], n), DataRows(lists[1..]), Columns(0, 1, 2, 3, 4), gen)
  {
    assert DataRows(lists) == ListRows(lists[0]) + DataRows(lists[1..]);
    ApplyRowsAppend(Acc(pre, n), ListRows(lists[0]), DataRows(lists[1..]), Columns(0, 1, 2, 3, 4), gen);
    DecodeListRows(pre, lists[0], n, gen);
  }

  /** The first list's id is new to the lists before it. */
  lemma FirstIdFresh(pre: seq<TodoList>, lists: seq<TodoList>)
    requires |lists| > 0
    requires DistinctListIds(pre + lists)
    ensures lists[0].id !in ListIds(pre)
    ensures pre + [lists[0]] + lists[1..] == pre + lists
  {
    assert forall i :: 0 <= i < |pre| ==> (pre + lists)[i] == pre[i];
    assert (pre + lists)[|pre|] == lists[0];
    NotInListIds(pre, lists[0].id);
    assert pre + [lists[0]] + lists[1..] == pre + lists;
  }

  /** The data rows of `lists`, read after `pre`, rebuild `pre + lists`. */
  lemma {:induction false} DecodeDataRows(pre: seq<TodoList>, lists: seq<TodoList>, n: nat, gen: nat -> string)
    requires DistinctListIds(pre + lists)
    requires forall i :: 0 <= i < |lists| ==> ListExportable(lists[i])
    ensures ApplyRows(Acc(pre, n), DataRows(lists), Columns(0, 1, 2, 3, 4), gen) == Acc(pre + lists, n)
    decreases |lists|
  {
    if |lists| == 0 {
      assert pre + lists == pre;
    } else {
      FirstIdFresh(pre, lists);
      DecodeNextList(pre, lists, n, gen);
      assert forall i :: 0 <= i < |lists[1..]| ==> lists[1..][i] == lists[i + 1];
      DecodeDataRows(pre + [lists[0]], lists[1..], n, gen);
    }
  }

  /** The first line `toCSV` writes reads back as the header row. */
  lemma EncodedHeader(s: State)
    requires Exportable(s)
    ensures SplitLine(HeaderLine(Lines(ToCsv(s)))) == Header
  {
    assert forall i :: 0 <= i < |s.lists| ==> ListClean(s.lists[i]);
    ToCsvLines(s);
    HeaderEncoding();
    SplitEncodedRow(Header);
  }

  /** Tokenizing encoded rows gives the rows back. */
  lemma TokenizeEncoded(rows: seq<Row>)
    requires forall k :: 0 <= k < |rows| ==> |rows[k]| >= 1
    ensures Tokenize(EncodeRows(rows)) == rows
  {
    forall k | 0 <= k < |rows|
      ensures SplitLine(EncodeRow(rows[k])) == rows[k]
    {
      SplitEncodedRow(rows[k]);
    }
  }

  lemma EncodeRowsTail(rows: seq<Row>)
    requires |rows| > 0
    ensures EncodeRows(rows)[1..] == EncodeRows(rows[1..])
  {
  }

  lemma ExportableClean(s: State)
    requires Exportable(s)
    ensures forall i :: 0 <= i < |s.lists| ==> ListClean(s.lists[i])
  {
  }

  /** The lines after the header are the encoded data rows. */
  lemma ExportDataLines(s: State)
    requires Exportable(s)
    ensures DataLines(Lines(ToCsv(s))) == EncodeRows(DataRows(s.lists))
  {
    ExportableClean(s);
    ToCsvLines(s);
    EncodeRowsTail(Rows(s));
    assert Rows(s)[1..] == DataRows(s.lists);
  }

  /** The other lines read back as the data rows, field for field. */
  lemma EncodedData(s: State)
    requires Exportable(s)
    ensures Tokenize(DataLines(Lines(ToCsv(s)))) == DataRows(s.lists)
  {
    ExportDataLines(s);
    TokenizeEncoded(DataRows(s.lists));
  }

  /** `fromCSV(toCSV(s))` rebuilds the lists of `s` exactly and activates the first. */
  lemma CodecRoundTrip(s: State, gen: nat -> string)
    requires Exportable(s)
    ensures FromCsv(ToCsv(s), gen) ==
      Success(State(s.lists, if |s.lists| > 0 then Some(s.lists[0].id) else None))
  {
    var text := ToCsv(s);
    EncodedParts(s);
    FromCsvParts(text, gen, Columns(0, 1, 2, 3, 4), DataRows(s.lists));
    DecodeAll(s.lists, gen);
  }

  /** The header of the export locates the five columns in the order written,
      and its other lines are the data rows. */
  lemma EncodedParts(s: State)
    requires Exportable(s)
    ensures LocateColumns(SplitLine(HeaderLine(Lines(ToCsv(s))))) == Success(Columns(0, 1, 2, 3, 4))
    ensures Tokenize(DataLines(Lines(ToCsv(s)))) == DataRows(s.lists)
  {
    EncodedHeader(s);
    HeaderColumns();
    EncodedData(s);
  }

  /** The data rows of the whole collection rebuild it from nothing. */
  lemma DecodeAll(lists: seq<TodoList>, gen: nat -> string)
    requires DistinctListIds(lists)
    requires forall i :: 0 <= i < |lists| ==> ListExportable(lists[i])
    ensures ApplyRows(Acc([], 0), DataRows(lists), Columns(0, 1, 2, 3, 4), gen) == Acc(lists, 0)
  {
    assert [] + lists == lists;
    DecodeDataRows([], lists, 0, gen);
  }
}
