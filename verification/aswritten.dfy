/** The list order `fromCSV` produces as written. `Object.values(map)` lists
    an object's own keys in the order of OrdinaryOwnPropertyKeys (section
    10.1.11.1 of ECMA-262): first every key that is an array index (the
    canonical decimal form of an integer below 2^32 - 1), in ascending numeric
    order, then the other string keys in insertion order. So a list whose id is
    such a numeral moves ahead of the lists read before it. The rest of the
    model decodes in file order; this module states where the two differ. */
module AsWritten {
  import opened Wrappers
  import opened Seqs
  import opened Strings
  import opened Model
  import opened Codec
  import opened RoundTrip

  predicate AllDigits(s: string) {
    forall k :: 0 <= k < |s| ==> '0' <= s[k] <= '9'
  }

  /** A key ECMAScript treats as an array index: decimal digits without a
      leading zero (other than "0" itself) denoting a value below 2^32 - 1. */
  predicate IsArrayIndex(s: string) {
    && s != [] && AllDigits(s)
    && (s[0] != '0' || |s| == 1)
    && DecimalValue(s) < 0xFFFF_FFFF
  }

  function IndexValue(l: TodoList): nat
    requires IsArrayIndex(l.id)
  {
    DecimalValue(l.id)
  }

  predicate IndexKeyed(lists: seq<TodoList>) {
    forall i :: 0 <= i < |lists| ==> IsArrayIndex(lists[i].id)
  }

  /** No list's id is an array index. */
  predicate NoIndexIds(lists: seq<TodoList>) {
    forall i :: 0 <= i < |lists| ==> !IsArrayIndex(lists[i].id)
  }

  predicate Ascending(lists: seq<TodoList>)
    requires IndexKeyed(lists)
  {
    forall i :: 0 <= i < |lists| - 1 ==> IndexValue(lists[i]) <= IndexValue(lists[i + 1])
  }

  /** One step of the ascending order: `l` goes before the first list with a
      larger numeric id. */
  function Insert(l: TodoList, sorted: seq<TodoList>): (r: seq<TodoList>)
    requires IsArrayIndex(l.id) && IndexKeyed(sorted) && Ascending(sorted)
    ensures |r| == |sorted| + 1
    ensures forall x :: x in r <==> x == l || x in sorted
    ensures IndexKeyed(r) && Ascending(r)
    ensures r[0] == l || (|sorted| > 0 && r[0] == sorted[0])
  {
    if |sorted| == 0 then [l]
    else if IndexValue(l) <= IndexValue(sorted[0]) then [l] + sorted
    else
      var rest := Insert(l, sorted[1..]);
      assert forall x :: x in sorted[1..] ==> x in sorted;
      [sorted[0]] + rest
  }

  /** The array-index keyed lists in ascending numeric order. */
  function SortByIndex(lists: seq<TodoList>): (r: seq<TodoList>)
    requires IndexKeyed(lists)
    ensures |r| == |lists|
    ensures forall x :: x in r <==> x in lists
    ensures IndexKeyed(r) && Ascending(r)
  {
    if |lists| == 0 then []
    else
      assert IndexKeyed(lists[1..]);
      var rest := SortByIndex(lists[1..]);
      assert forall x :: x in lists <==> x == lists[0] || x in lists[1..];
      Insert(lists[0], rest)
  }

  /** Inserting adds exactly the one list. */
  lemma {:induction false} InsertPermutes(l: TodoList, sorted: seq<TodoList>)
    requires IsArrayIndex(l.id) && IndexKeyed(sorted) && Ascending(sorted)
    ensures multiset(Insert(l, sorted)) == multiset(sorted) + multiset{l}
  {
    if |sorted| > 0 && IndexValue(l) > IndexValue(sorted[0]) {
      InsertPermutes(l, sorted[1..]);
      assert sorted == [sorted[0]] + sorted[1..];
    }
  }

  /** Sorting rearranges the lists and neither adds nor drops any, not even a duplicate. */
  lemma {:induction false} SortByIndexPermutes(lists: seq<TodoList>)
    requires IndexKeyed(lists)
    ensures multiset(SortByIndex(lists)) == multiset(lists)
  {
    if |lists| > 0 {
      var tail := lists[1..];
      assert IndexKeyed(tail);
      var rest := SortByIndex(tail);
      SortByIndexPermutes(tail);
      InsertPermutes(lists[0], rest);
      assert SortByIndex(lists) == Insert(lists[0], rest);
      assert lists == [lists[0]] + tail;
    }
  }

  predicate Indexed(l: TodoList) {
    IsArrayIndex(l.id)
  }

  predicate Named(l: TodoList) {
    !IsArrayIndex(l.id)
  }

  /** `Object.values(map)` for the lists built in insertion order. */
  function ObjectValues(lists: seq<TodoList>): seq<TodoList> {
    IndexedKeyed(lists);
    SortByIndex(Filter(lists, Indexed)) + Filter(lists, Named)
  }

  lemma IndexedKeyed(lists: seq<TodoList>)
    ensures IndexKeyed(Filter(lists, Indexed))
  {
    var indexed := Filter(lists, Indexed);
    assert forall i :: 0 <= i < |indexed| ==> indexed[i] in indexed;
  }

  /** The object's values are the lists, each once: none is added or dropped,
      not even a duplicate. */
  lemma ObjectValuesPermutes(lists: seq<TodoList>)
    ensures var r := ObjectValues(lists);
      && multiset(r) == multiset(lists)
      && |r| == |lists|
      && (forall x :: x in r <==> x in lists)
  {
    IndexedKeyed(lists);
    SortByIndexPermutes(Filter(lists, Indexed));
    FilterMultiset(lists);
    var r := ObjectValues(lists);
    assert |multiset(r)| == |r| && |multiset(lists)| == |lists|;
    assert forall x :: x in r <==> x in multiset(r);
  }

  /** First come the lists whose id is an array index, in ascending numeric
      order, then the others in insertion order; with no array-index id this
      is the insertion order. */
  lemma ObjectValuesOrder(lists: seq<TodoList>)
    ensures var r := ObjectValues(lists);
      var m := |Filter(lists, Indexed)|;
      && m <= |r| && IndexKeyed(r[..m]) && Ascending(r[..m])
      && r[m..] == Filter(lists, Named)
      && (forall i, j :: 0 <= i < j < |r| && Named(r[i]) ==> Named(r[j]))
      && (NoIndexIds(lists) ==> r == lists)
  {
    IndexedKeyed(lists);
    var sorted := SortByIndex(Filter(lists, Indexed));
    var named := Filter(lists, Named);
    AppendParts(sorted, named);
    NamedAllNamed(lists);
    NamedLast(sorted, named);
    if NoIndexIds(lists) {
      ObjectValuesNoIndex(lists);
    }
  }

  lemma AppendParts<T>(a: seq<T>, b: seq<T>)
    ensures (a + b)[..|a|] == a && (a + b)[|a|..] == b
  {
  }

  lemma NamedAllNamed(lists: seq<TodoList>)
    ensures forall j :: 0 <= j < |Filter(lists, Named)| ==> Named(Filter(lists, Named)[j])
  {
    var named := Filter(lists, Named);
    assert forall j :: 0 <= j < |named| ==> named[j] in named;
  }

  /** Array-index keyed lists followed by the others: once an ordinary id
      appears, no array-index id follows. */
  lemma NamedLast(sorted: seq<TodoList>, named: seq<TodoList>)
    requires IndexKeyed(sorted)
    requires forall j :: 0 <= j < |named| ==> Named(named[j])
    ensures var r := sorted + named;
      forall i, j :: 0 <= i < j < |r| && Named(r[i]) ==> Named(r[j])
  {
    var r := sorted + named;
    assert forall i :: 0 <= i < |r| ==> (Named(r[i]) <==> i >= |sorted|);
  }

  lemma ObjectValuesNoIndex(lists: seq<TodoList>)
    requires NoIndexIds(lists)
    ensures ObjectValues(lists) == lists
  {
    FilterKeepsAll(lists, Named);
    FilterNone(lists, Indexed);
  }

  /** Splitting by the two predicates keeps every list and nothing else. */
  lemma {:induction false} FilterMultiset(lists: seq<TodoList>)
    ensures multiset(Filter(lists, Indexed)) + multiset(Filter(lists, Named)) == multiset(lists)
  {
    if |lists| > 0 {
      FilterMultiset(lists[1..]);
      assert lists == [lists[0]] + lists[1..];
    }
  }

  /** `fromCSV` as written: the same rows, the same merge, then the object's
      key order. */
  function FromCsvAsWritten(text: string, gen: nat -> string): (r: Result<State, DecodeError>)
    ensures r.Failure? <==> FromCsv(text, gen).Failure?
    ensures r.Failure? ==> r == FromCsv(text, gen)
    ensures r.Success? ==> forall x :: x in r.value.lists <==> x in FromCsv(text, gen).value.lists
    ensures r.Success? && NoIndexIds(FromCsv(text, gen).value.lists) ==> r == FromCsv(text, gen)
  {
    match FromCsv(text, gen)
    case Failure(e) => Failure(e)
    case Success(d) =>
      ObjectValuesPermutes(d.lists);
      ObjectValuesOrder(d.lists);
      var lists := ObjectValues(d.lists);
      Success(State(lists, FirstId(lists)))
  }

  /** Two lists, the first with an ordinary id and the second with a numeral
      id, are exported in that order but read back the other way round, and
      the numeral one becomes active; in file order they come back as they were. */
  lemma NumericIdFirst(a: TodoList, b: TodoList, gen: nat -> string)
    requires ListExportable(a) && ListExportable(b) && a.id != b.id
    requires !IsArrayIndex(a.id) && IsArrayIndex(b.id)
    ensures FromCsv(ToCsv(State([a, b], Some(a.id))), gen) == Success(State([a, b], Some(a.id)))
    ensures FromCsvAsWritten(ToCsv(State([a, b], Some(a.id))), gen) == Success(State([b, a], Some(b.id)))
  {
    var s := State([a, b], Some(a.id));
    CodecRoundTrip(s, gen);
    TwoListsReordered(a, b);
  }

  lemma TwoListsReordered(a: TodoList, b: TodoList)
    requires !IsArrayIndex(a.id) && IsArrayIndex(b.id)
    ensures ObjectValues([a, b]) == [b, a]
  {
    var lists := [a, b];
    assert lists[1..] == [b];
    assert Filter(lists, Indexed) == [b];
    assert Filter(lists, Named) == [a];
  }
}
