/** The import handler: decode the chosen file's text, refuse a decode that
    failed or that holds no list, and otherwise replace the whole state with the
    decoded one, making its first list active when the decoder chose none.
    Reading the file, saving and rendering are not part of this model; the text
    is an argument and the handler's `alert` is part of the result. */
module Importer {
  import opened Wrappers
  import opened Csv
  import opened Model
  import opened Codec
  import opened RoundTrip

  /** The state after the handler and the message it alerted, if any. */
  datatype Outcome = Outcome(state: State, alert: Option<string>)

  const AlertPrefix: string := "Failed to import CSV: "
  const NoListsMessage: string := "No lists in CSV"

  /** The decoded text's lists hold at least one list. */
  predicate HasLists(d: Result<State, DecodeError>) {
    d.Success? && |d.value.lists| > 0
  }

  /** `if (!state.activeListId && state.lists.length)`: an absent or empty
      active id falls back to the first list's id. */
  function ActivateFirst(s: State): (r: State)
    requires |s.lists| > 0
    ensures r.lists == s.lists
    ensures r.activeListId == Some(if s.activeListId.Some? && s.activeListId.value != [] then s.activeListId.value else s.lists[0].id)
  {
    if s.activeListId.None? || s.activeListId.value == [] then s.(activeListId := Some(s.lists[0].id)) else s
  }

  function ImportCsv(s: State, text: string, gen: nat -> string): (r: Outcome)
    ensures r.alert.None? <==> HasLists(FromCsv(text, gen))
    ensures r.alert == Some(AlertPrefix + "Invalid header") <==> !HasAllColumns(SplitLine(HeaderLine(Lines(text))))
    ensures r.alert.Some? ==> r.state == s
    ensures r.alert.Some? ==>
      r.alert == Some(AlertPrefix + ErrorMessage(InvalidHeader)) || r.alert == Some(AlertPrefix + NoListsMessage)
    ensures r.alert.None? ==> r.state.lists == FromCsv(text, gen).value.lists
    ensures r.alert.None? ==> CurrentList(r.state) == Some(r.state.lists[0])
    ensures r.alert.None? ==> r.state.activeListId == Some(r.state.lists[0].id)
    ensures r.alert.None? ==> Valid(r.state)
    ensures Valid(s) ==> Valid(r.state)
  {
    match FromCsv(text, gen)
    case Failure(e) => Outcome(s, Some(AlertPrefix + ErrorMessage(e)))
    case Success(d) =>
      if |d.lists| == 0 then
        assert AlertPrefix + NoListsMessage != AlertPrefix + "Invalid header" by {
          assert (AlertPrefix + NoListsMessage)[|AlertPrefix|] == 'N';
        }
        Outcome(s, Some(AlertPrefix + NoListsMessage))
      else
        var t := ActivateFirst(d);
        assert t.activeListId == Some(t.lists[0].id);
        assert CurrentIndex(t) == Some(0) by {
          CurrentListUnique(t, 0);
        }
        Outcome(t, None)
  }

  /** Importing an export of a collection the format can carry replaces the
      state with that collection, first list active, and alerts nothing. */
  lemma ImportRoundTrip(s0: State, s: State, gen: nat -> string)
    requires Exportable(s)
    requires |s.lists| > 0
    ensures ImportCsv(s0, ToCsv(s), gen) == Outcome(State(s.lists, Some(s.lists[0].id)), None)
  {
    CodecRoundTrip(s, gen);
  }

  /** An export of a collection with no list decodes, but the handler refuses
      it and keeps the state as it was. */
  lemma EmptyExportRejected(s0: State, s: State, gen: nat -> string)
    requires |s.lists| == 0
    ensures ImportCsv(s0, ToCsv(s), gen) == Outcome(s0, Some(AlertPrefix + NoListsMessage))
  {
    CodecRoundTrip(s, gen);
  }

  /** A text with a valid header is refused with "No lists in CSV" exactly
      when no line follows the header; otherwise its lists replace the state. */
  lemma NoDataLinesRejected(s0: State, text: string, gen: nat -> string)
    requires HasAllColumns(SplitLine(HeaderLine(Lines(text))))
    ensures ImportCsv(s0, text, gen).alert.Some? <==> |Lines(text)| <= 1
    ensures |Lines(text)| <= 1 ==> ImportCsv(s0, text, gen) == Outcome(s0, Some(AlertPrefix + NoListsMessage))
  {
    FromCsvNoLists(text, gen);
  }

  /** A file holding only the header line is such a text. */
  lemma HeaderOnlyRejected(s0: State, gen: nat -> string)
    ensures ImportCsv(s0, HeaderText, gen) == Outcome(s0, Some(AlertPrefix + NoListsMessage))
  {
    var empty := State([], None);
    ToCsvLines(empty);
    EncodedParts(empty);
    assert ToCsv(empty) == HeaderText;
    NoDataLinesRejected(s0, HeaderText, gen);
  }
}
