# Void Todo — a Dafny model of its lists, handlers and CSV codec

Void Todo (`app.js`) keeps a collection of named lists ("pages"). Each list
holds an ordered sequence of todos, and one list is the current one. The
event handlers change the collection in place: create, rename, delete and
select a list; add, delete, toggle and tick a todo. The collection can be
exported as a CSV text with five columns (`list_id,list_name,todo_id,
todo_text,done`) and imported back.

This project models that core as pure Dafny functions over immutable data:

- `Model`: the records (`Todo`, `TodoList`, `State`) and `currentList`.
- `Mutators`: each handler's state change, taking the dialog's answer and
  the freshly generated id as arguments.
- `Csv`: the field escaper and the single-line tokenizer. The tokenizer is
  also given as a method with the source's loop, proved equal to the
  recursive definition.
- `Codec`: `toCSV`, and `fromCSV` with its column lookup, fallbacks and
  merging of rows into lists.
- `RoundTrip`: the proof that `fromCSV(toCSV(s))` gives back the lists
  of `s`.
- `Importer`: the import handler, with its "No lists in CSV" refusal.
- `Scenario`: a worked session. A fresh collection gets one todo,
  which is ticked, exported and read back.
- `AsWritten`: the list order that `Object.values` actually produces (see
  Findings).
- `Strings` and `Seqs`: the runtime functions the code relies on (`trim`,
  `toLowerCase`, `split`, `join`, `filter`, `indexOf`).

Modelling choices:

- `uid()` is not modelled as random. A handler that creates something takes
  the new id as a parameter, and its precondition says the id is not in use.
  `fromCSV` takes a generator `gen: nat -> string`, where the n-th call of
  `uid()` in one decode yields `gen(n)`.
- The plain object `map` of `fromCSV` becomes a sequence of lists searched by
  id, in first-occurrence order. `indexOf` returning -1 becomes `None`.
- Thrown errors and `alert` become values: a `Result` for `fromCSV`, and an
  `Outcome` carrying the alert text for the import handler.

Three behaviours of the code worth noting:

- The "No lists in CSV" error is raised by the import handler (app.js:162),
  not by `fromCSV`. `fromCSV` itself returns an empty collection for a text
  with no non-empty line after its header (`Codec.FromCsvNoLists`).
- `done` is true when the field, lowercased, equals `true`. So `True` and
  `TRUE` also read as true (`Strings.LowerIsTrueIff`).
- The decoded lists' order is given by `Object.values`, which does not always
  match file order (see Findings).

## Model

| member | source | states |
|---|---|---|
| Seqs.Filter | app.js:73 | `filter` keeps exactly the elements satisfying the test, and never grows the sequence |
| Seqs.IndexOf | app.js:265-269 | `indexOf` gives the first position holding the value, and None exactly when the value is absent |
| Strings.Trim | app.js:94 | `trim` of a text is empty exactly when the text is all whitespace, and otherwise starts and ends with non-whitespace |
| Strings.TrimIsSlice | app.js:94 | `trim` gives a contiguous slice of the input, and everything it removes before and after that slice is whitespace |
| Strings.ToLowerAscii | app.js:282 | lowercasing keeps the length and folds each ASCII capital to its small letter |
| Strings.LowerIsTrueIff | app.js:282 | a `done` field lowercases to `true` exactly when it spells "true" in any mix of letter cases |
| Strings.NormalizeNewlines | app.js:262 | after replacing `\r\n?` there is no CR left, a text without CR is unchanged, and no other character is introduced |
| Strings.NormalizeCrFreePrefix | app.js:262 | a leading run without CR is copied through unchanged |
| Strings.NormalizeCrLf | app.js:262 | a CRLF pair after a run without CR becomes exactly one LF |
| Strings.NormalizeLoneCr | app.js:262 | a CR not followed by LF, after a run without CR, becomes exactly one LF |
| Strings.SplitOn | app.js:262 | `split('\n')` is never empty, no piece holds the separator, and joining the pieces gives the text back |
| Strings.JoinChars | app.js:258 | a joined text holds exactly the characters of its pieces, plus the separator when there are two or more pieces |
| Strings.SplitOnJoin | app.js:258-262 | splitting a join at the separator gives the pieces back when none holds the separator |
| Strings.DropBlank | app.js:262 | `filter(Boolean)` drops exactly the empty lines: the result holds exactly the non-empty lines, is the input when none is empty and empty when all are |
| Strings.DropBlankAppend | app.js:262 | filtering a concatenation filters each part, so the kept lines stay in their order |
| Strings.NatToString | app.js:48 | the list count in "Page n" is written as decimal digits denoting n, with no leading zero |
| Csv.Escape | app.js:289-293 | a field is written unchanged exactly when it holds no quote, comma or LF; otherwise it is quoted, 2 plus its number of quotes longer; CR and LF are neither added nor removed |
| Csv.DoubleQuotes | app.js:291 | doubling quotes adds one character per quote and keeps every other character |
| Csv.SplitCsvLine | app.js:295-314 | the loop as written, including its index skip over a doubled quote, returns exactly the state machine `SplitLine` |
| Csv.SplitLine | app.js:295-314 | every line, even the empty one, gives at least one field, and a line without quote characters is split at every comma |
| Csv.SplitEncodedRow | app.js:289-314 | tokenizing an escaped, comma-joined row gives back every field, including fields with quotes, commas or line breaks |
| Csv.EncodeRowNoBreaks | app.js:258 | an encoded row holds a CR or LF only if one of its fields does |
| Csv.EncodeRowNonEmpty | app.js:258 | a row of five fields never encodes to an empty line, so no exported row is dropped as empty |
| Model.FindList | app.js:224 | `find` by id gives the first list with that id, and nothing exactly when no list has it |
| Model.FindTodo | app.js:114 | `find` by id gives the first todo with that id, and nothing exactly when no todo has it |
| Model.CurrentIndex | app.js:223-225 | the current list is the first one whose id is the active id, else the first list, else none when there are no lists |
| Model.CurrentList | app.js:223-225 | `currentList()` is one of the lists, carries the active id when some list does, and is absent only when there are no lists |
| Model.CurrentListUnique | app.js:224 | with unique ids, the list carrying the active id is the current list |
| Model.CreateDefault | app.js:232-234 | `createDefault()` is an empty list named "Main" under the id it is given |
| Model.InitState | app.js:227-230 | the initial state holds exactly the default list `createDefault()` builds under the given id, and that id is the stored active id; the list is current and the invariant holds |
| Mutators.NewListName | app.js:48 | the new list's name is the trimmed input, or "Page n" with n the list count plus one when the input is blank (empty or whitespace only); it is never empty |
| Mutators.CreateList | app.js:46-55 | creating appends a list with the fresh id, that name and no todos, keeps the others, stores the fresh id as the active id, so the new list is current, even in a state with no list, and keeps the invariant |
| Mutators.RenameList | app.js:57-67 | renaming changes only the current list's name, to the trimmed answer; a cancelled or blank answer changes nothing |
| Mutators.RenameTwice | app.js:57-67 | renaming twice with the same answer is renaming once |
| Mutators.Without | app.js:73 | the lists left after the filter are exactly those without the deleted id, and ids stay unique |
| Mutators.DeleteList | app.js:69-83 | an unconfirmed delete changes nothing; a confirmed one removes the current list's id and activates the first list left, or a fresh "Main" list when none is left; the invariant is kept |
| Mutators.WithoutUnique | app.js:73 | with unique ids the filter removes exactly one list and keeps the order of the rest |
| Mutators.DeleteListKeepsOrder | app.js:69-83 | with unique ids and two or more lists, deleting leaves the other lists in their order |
| Mutators.DeleteUndoesCreate | app.js:46-83 | deleting the list just created restores the lists and makes the first one current |
| Mutators.SelectList | app.js:85-91 | selecting stores the id as given and keeps the lists: a known id becomes current, and an unknown one falls back to the first list |
| Mutators.AddTodo | app.js:93-102 | blank input changes nothing; otherwise exactly one todo (fresh id, trimmed text, not done) is appended to the current list, and todo ids stay unique |
| Mutators.DeleteTodo | app.js:109-122 | an id no todo of the current list carries changes nothing; otherwise exactly the todos with that id leave the current list, every other todo keeps its number of occurrences, and the other lists, names and the active id stay |
| Mutators.DeleteTodoKeepsOrder | app.js:114-118 | when one todo carries the id, deleting removes exactly that todo and keeps all the others, repeated ones included, in their order |
| Mutators.DeleteTodoFilters | app.js:114-118 | deleting an id the current list carries leaves exactly the `filter` of its todos by a different id: every other todo, repeats included, in its order, even when several todos carry the id |
| Mutators.DeleteUndoesAdd | app.js:93-122 | deleting the todo just added restores the state before the add |
| Mutators.SetDone | app.js:132-142 | the checkbox sets the flag of the first matching todo of the current list and changes nothing else; an unknown id changes nothing |
| Mutators.SetDoneUnchanged | app.js:132-142 | setting a todo's flag to the value it already has changes nothing |
| Mutators.ToggleDone | app.js:109-129 | the done button flips the flag of the first matching todo of the current list and changes nothing else |
| Mutators.ToggleIsSetNegated | app.js:124-142 | toggling is setting the flag to the opposite of its current value |
| Mutators.ToggleTwice | app.js:124-129 | toggling the same todo twice gives back the original state |
| Codec.ListRows | app.js:254-256 | a list writes one row per todo in order, or one placeholder row with empty todo fields when it has none |
| Codec.DataRows | app.js:254-257 | the data rows number the sum over lists of max(1, number of todos); every row has five fields, and fields without line breaks give rows without them |
| Codec.Lines | app.js:262 | the lines read are never empty and hold no CR or LF |
| Codec.ShiftLines | app.js:263 | `shift()` takes the first line as the header and leaves the rest, in order, as data; with no line the header is empty |
| Codec.LocateColumns | app.js:263-271 | the header is invalid exactly when one of the five names is missing; otherwise each column is the first position of its name, in any order |
| Codec.Resolve | app.js:276-282 | an empty `list_id` or `todo_id` field draws a fresh id, in that order, an empty `list_name` reads "Imported", and `done` holds iff the field spells "true" in any letter case |
| Codec.EnsureList | app.js:279 | the first row with an id creates that list at the end, with that row's name and no todos; a known id changes nothing |
| Codec.AppendTodo | app.js:283 | the todo goes at the end of the list with that id; ids, names and all other lists are kept |
| Codec.Merge | app.js:277-283 | merging a row never renames, drops or reorders a list already built; a new id adds a list at the end with that row's name |
| Codec.MergeTodos | app.js:279-283 | the row's todo, when its text is not empty, is appended to its list's todos and nothing else is |
| Codec.MergeDecoded | app.js:277-283 | merging keeps list ids unique, names non-empty and todo texts non-empty |
| Codec.ApplyRowsAppend | app.js:275-284 | the loop over one batch of rows and then another is the loop over both |
| Codec.ApplyRowsNonEmpty | app.js:274-284 | starting from the empty map, the loop builds at least one list exactly when there is a data row |
| Codec.ApplyRowsDecoded | app.js:275-284 | after any rows the lists have unique ids, non-empty names and no todo with empty text |
| Codec.ApplyRowsExtends | app.js:275-284 | later rows never rename or drop a list, and only append todos |
| Codec.FromCsv | app.js:261-287 | decoding fails with "Invalid header" exactly when a column name is missing; on success the lists satisfy the decoder's guarantees and the first list is active |
| Codec.FirstId | app.js:286 | the active id is the first list's id, or null when there is no list or its id is empty |
| Codec.FromCsvNoLists | app.js:261-287 | a decoded text holds no list exactly when no non-empty line follows the header |
| Codec.BlankTextInvalidHeader | app.js:262-271 | an empty text, or one of line breaks only, is an invalid header |
| RoundTrip.HeaderEncoding | app.js:253-258 | the header row is written as `list_id,list_name,todo_id,todo_text,done` |
| RoundTrip.ToCsvStartsWithHeader | app.js:252-259 | every export starts with the header line, and is only that line exactly when there are no lists |
| RoundTrip.ToCsvLines | app.js:252-262 | an export whose fields carry no line break reads back as one line for the header and one per data row |
| RoundTrip.HeaderColumns | app.js:263-271 | the exported header locates the columns at positions 0 to 4 |
| RoundTrip.DecodeListRows | app.js:254-284 | the rows of one list rebuild exactly that list after the lists read before it |
| RoundTrip.DecodeDataRows | app.js:254-284 | the data rows of a sequence of lists rebuild all of them, in order |
| RoundTrip.CodecRoundTrip | app.js:252-287 | decoding the export of a collection with non-empty ids, names and texts, no line breaks and unique list ids gives back every list, in order, with the first one active |
| Importer.ActivateFirst | app.js:164 | an absent or empty active id falls back to the first list's id |
| Importer.ImportCsv | app.js:160-171 | the handler alerts exactly when decoding fails or gives no list, and then keeps the state; otherwise it replaces the state with the decoded lists and stores the first list's id as the active id, so the first list is current, and the invariant holds |
| Importer.ImportRoundTrip | app.js:147-164 | importing an export of a non-empty collection replaces the state with the same lists, first one active, and alerts nothing |
| Importer.EmptyExportRejected | app.js:162 | importing an export of a collection with no lists is refused with "No lists in CSV" |
| Importer.NoDataLinesRejected | app.js:160-162 | a text with a valid header is refused exactly when no non-empty line follows the header, and then with "No lists in CSV" and the state kept |
| Importer.HeaderOnlyRejected | app.js:161-162 | a text holding only the header line is refused with "No lists in CSV" |
| Scenario.SessionState | app.js:93-129 | a fresh collection with one todo added and ticked holds one "Main" list with that todo, done |
| Scenario.SessionExport | app.js:252-258 | its export is the header line and one line with the list id, "Main", the todo id, its text and "true" |
| Scenario.SessionImport | app.js:252-287 | reading that export back gives the same list and the ticked todo |
| AsWritten.SortByIndexPermutes | app.js:285 | ordering the array-index keys rearranges the lists without adding or dropping any |
| AsWritten.ObjectValuesPermutes | app.js:285 | `Object.values` yields every list exactly once |
| AsWritten.ObjectValuesOrder | app.js:285 | `Object.values` yields the lists with array-index ids first, in ascending numeric order, then the others in insertion order; with no array-index id it is the insertion order |
| AsWritten.FromCsvAsWritten | app.js:285-286 | the decoder as written succeeds exactly when the file-order decoder does, with the same lists, and agrees with it when no id is an array index |
| AsWritten.NumericIdFirst | app.js:285-286 | an export of lists with ids "x" then a numeral comes back reversed as written, with the numeral list active; in file order it comes back as exported |

## Left out

- Rendering (`renderAll`, `renderSidebar`, `renderHeader`, `renderTodos`): this is view code, and the sidebar's fallback label `Page i` is only displayed.
- `load` and `save` (localStorage and JSON): this is I/O. In particular a stored state is not checked against `Model.Valid`.
- The export handler's Blob, object URL, file name with the date and URL revocation: this is I/O. The text it writes is `Codec.ToCsv`.
- The import handler's asynchronous file read and the input reset: this is I/O. The text is a parameter of `Importer.ImportCsv`.
- Opening the dialogs, focus and the Enter key binding: this is UI wiring. Each dialog's answer is a parameter.
- `uid()`: the random id is a parameter. Id collisions are excluded by preconditions, not modelled.
- Codec.Merge: ids that name a property every object inherits (`constructor`, `__proto__`, `toString`, …) make `map[lid]` find that property. JavaScript then skips the list, or throws when pushing a todo. The model treats them like any other id.
- Codec.FromCsv: lists are kept in file order. The program orders them by `Object.values`, which is modelled separately in `AsWritten` (see Findings).
- Strings.ToLowerAscii: folds only ASCII capitals, while JavaScript's `toLowerCase` folds all of Unicode. The model does not consider whether some non-ASCII character lowercases to one of `t`, `r`, `u`, `e`.
- Strings.Trim: characters are Unicode scalar values, while JavaScript strings are UTF-16 code units. All characters the code tests for are in the Basic Multilingual Plane.
- Csv.Escape: `String(s ?? '')` is not modelled, because every field the code passes is already a string.
- `err?.message || err` in the import handler: only the two errors the modelled code raises are represented.

## Findings

| source | as written | input that shows it | evidently intended | confidence | as-written member | corrected member |
|---|---|---|---|---|---|---|
| app.js:285 | `Object.values(map)` lists keys that are array indices (canonical numerals below 2^32 - 1) first, in ascending numeric order, then the other ids in insertion order; `lists[0]` then picks the active list | a file whose rows carry list id `x` and then list id `7`: the lists come back as `7`, `x`, and `7` becomes active | the lists in first-occurrence (file) order, with the first list in the file active, which is what the round trip of an export needs | medium (language semantics, not executed) | AsWritten.NumericIdFirst | Codec.FromCsv |
