/** The field escaper and the single-line tokenizer of the export/import format
    (app.js `csvEscape` and `splitCsvLine`). The format follows section 2 of
    RFC 4180 loosely: a field is quoted only when it holds a double quote, a
    comma or a line feed (a carriage return alone does not trigger quoting), and
    the tokenizer sees one line at a time. */
module Csv {
  import opened Strings

  type Row = seq<string>

  /** The test `/[",\n]/` that decides whether a field is quoted. */
  predicate NeedsQuoting(s: string) {
    '"' in s || ',' in s || '\n' in s
  }

  function QuoteCount(s: string): nat {
    if |s| == 0 then 0 else (if s[0] == '"' then 1 else 0) + QuoteCount(s[1..])
  }

  /** `s.replace(/"/g, '""')`. */
  function DoubleQuotes(s: string): (r: string)
    ensures |r| == |s| + QuoteCount(s)
    ensures forall c :: c != '"' ==> (c in r <==> c in s)
  {
    if |s| == 0 then []
    else (if s[0] == '"' then "\"\"" else [s[0]]) + DoubleQuotes(s[1..])
  }

  /** `csvEscape`: a field is left as it is exactly when it needs no quoting;
      otherwise it is enclosed in quotes with every inner quote doubled. Line
      breaks are carried through, never added or removed. */
  function Escape(s: string): (r: string)
    ensures r == s <==> !NeedsQuoting(s)
    ensures NeedsQuoting(s) ==>
      |r| == |s| + 2 + QuoteCount(s) && r[0] == '"' && r[|r| - 1] == '"'
    ensures '\r' in r <==> '\r' in s
    ensures '\n' in r <==> '\n' in s
  {
    if NeedsQuoting(s) then "\"" + DoubleQuotes(s) + "\"" else s
  }

  /** The state machine of `splitCsvLine`, run on the unread part `rest` of the
      line: `inQuotes` is the quote flag, `cur` the field being built and `out`
      the fields already emitted. */
  function SplitFrom(rest: string, inQuotes: bool, cur: string, out: seq<string>): (r: seq<string>)
    ensures |r| > |out| && r[..|out|] == out
    decreases |rest|
  {
    if |rest| == 0 then out + [cur]
    else
      var ch := rest[0];
      if inQuotes then
        if ch == '"' then
          if |rest| > 1 && rest[1] == '"' then SplitFrom(rest[2..], true, cur + "\"", out)
          else SplitFrom(rest[1..], false, cur, out)
        else SplitFrom(rest[1..], true, cur + [ch], out)
      else if ch == ',' then
        var r := SplitFrom(rest[1..], false, [], out + [cur]);
        assert r[..|out|] == r[..|out| + 1][..|out|];
        r
      else if ch == '"' then SplitFrom(rest[1..], true, cur, out)
      else SplitFrom(rest[1..], false, cur + [ch], out)
  }

  /** `splitCsvLine`: the fields of one line; every line, even the empty one,
      has at least one field, and a line without any quote character is split
      at every comma. */
  function SplitLine(line: string): (r: Row)
    ensures |r| >= 1
    ensures '"' !in line ==> r == SplitOn(line, ',')
  {
    SplitFromUnquoted(line);
    SplitFrom(line, false, [], [])
  }

  /** The loop of `splitCsvLine` as written, with its index skipping over a
      doubled quote, computes exactly the state machine above. */
  method SplitCsvLine(line: string) returns (out: seq<string>)
    ensures out == SplitLine(line)
  {
    out := [];
    var cur: string := [];
    var inQ := false;
    var i := 0;
    while i < |line|
      invariant 0 <= i <= |line|
      invariant SplitFrom(line[i..], inQ, cur, out) == SplitLine(line)
    {
      var ch := line[i];
      assert line[i..][0] == ch;
      assert line[i..][1..] == line[i + 1..];
      if inQ {
        if ch == '"' {
          if i + 1 < |line| && line[i + 1] == '"' {
            assert line[i..][2..] == line[i + 2..];
            cur := cur + "\"";
            i := i + 1;
          } else {
            inQ := false;
          }
        } else {
          cur := cur + [ch];
        }
      } else {
        if ch == ',' {
          out := out + [cur];
          cur := [];
        } else if ch == '"' {
          inQ := true;
        } else {
          cur := cur + [ch];
        }
      }
      i := i + 1;
    }
    out := out + [cur];
  }

  /** A line without any quote character is split at every comma. */
  lemma {:induction false} SplitUnquoted(rest: string, cur: string, out: seq<string>)
    requires '"' !in rest
    ensures SplitFrom(rest, false, cur, out) ==
      out + [cur + SplitOn(rest, ',')[0]] + SplitOn(rest, ',')[1..]
  {
    if |rest| > 0 {
      assert '"' !in rest[1..];
      var p := SplitOn(rest[1..], ',');
      if rest[0] == ',' {
        SplitUnquoted(rest[1..], [], out + [cur]);
        assert SplitOn(rest, ',') == [[]] + p;
        CommaStep(out, cur, p);
      } else {
        SplitUnquoted(rest[1..], cur + [rest[0]], out);
        assert SplitOn(rest, ',') == [[rest[0]] + p[0]] + p[1..];
        CharStep(out, cur, rest[0], p);
      }
    } else {
      assert cur + [] == cur;
    }
  }

  /** Closing a field at a comma, in terms of the pieces after it. */
  lemma CommaStep<T>(out: seq<seq<T>>, cur: seq<T>, p: seq<seq<T>>)
    requires |p| >= 1
    ensures (out + [cur]) + [[] + p[0]] + p[1..] == out + [cur + ([[]] + p)[0]] + ([[]] + p)[1..]
  {
    assert [] + p[0] == p[0];
    assert cur + [] == cur;
    assert ([[]] + p)[1..] == p;
  }

  /** Adding a character to the field being built. */
  lemma CharStep<T>(out: seq<seq<T>>, cur: seq<T>, c: T, p: seq<seq<T>>)
    requires |p| >= 1
    ensures out + [(cur + [c]) + p[0]] + p[1..] ==
      out + [cur + ([[c] + p[0]] + p[1..])[0]] + ([[c] + p[0]] + p[1..])[1..]
  {
    assert (cur + [c]) + p[0] == cur + ([c] + p[0]);
    assert ([[c] + p[0]] + p[1..])[1..] == p[1..];
  }

  /** The pieces of a split, with nothing before the first. */
  lemma FirstPiece<T>(p: seq<seq<T>>)
    requires |p| >= 1
    ensures [] + [[] + p[0]] + p[1..] == p
  {
    assert [] + p[0] == p[0];
  }

  lemma SplitFromUnquoted(line: string)
    ensures '"' !in line ==> SplitFrom(line, false, [], []) == SplitOn(line, ',')
  {
    if '"' !in line {
      SplitUnquoted(line, [], []);
      FirstPiece(SplitOn(line, ','));
    }
  }

  /** One encoded row: the escaped fields joined with commas. */
  function EscapeAll(fields: Row): (r: seq<string>)
    ensures |r| == |fields|
    ensures forall k :: 0 <= k < |r| ==> r[k] == Escape(fields[k])
  {
    seq(|fields|, k requires 0 <= k < |fields| => Escape(fields[k]))
  }

  /** A row of fields that need no quoting is written as they are. */
  lemma EscapeAllBare(fields: Row)
    requires forall k :: 0 <= k < |fields| ==> !NeedsQuoting(fields[k])
    ensures EscapeAll(fields) == fields
  {
  }

  function EncodeRow(fields: Row): string {
    Join(EscapeAll(fields), ',')
  }

  lemma {:induction false} BareField(f: string, rest: string, cur: string, out: seq<string>)
    requires '"' !in f && ',' !in f
    ensures SplitFrom(f + rest, false, cur, out) == SplitFrom(rest, false, cur + f, out)
  {
    if |f| > 0 {
      assert (f + rest)[1..] == f[1..] + rest;
      assert '"' !in f[1..] && ',' !in f[1..] by { assert forall c :: c in f[1..] ==> c in f; }
      BareField(f[1..], rest, cur + [f[0]], out);
      assert cur + [f[0]] + f[1..] == cur + f;
    } else {
      assert f + rest == rest;
      assert cur + f == cur;
    }
  }

  lemma {:induction false} QuotedBody(f: string, rest: string, cur: string, out: seq<string>)
    requires rest == [] || rest[0] != '"'
    ensures SplitFrom(DoubleQuotes(f) + "\"" + rest, true, cur, out) == SplitFrom(rest, false, cur + f, out)
  {
    var line := DoubleQuotes(f) + "\"" + rest;
    if |f| == 0 {
      assert line == "\"" + rest;
      assert line[1..] == rest;
      assert cur + f == cur;
    } else {
      var tail := DoubleQuotes(f[1..]) + "\"" + rest;
      QuotedBody(f[1..], rest, cur + [f[0]], out);
      assert cur + [f[0]] + f[1..] == cur + f;
      if f[0] == '"' {
        assert line == "\"\"" + tail;
        assert line[2..] == tail;
      } else {
        assert line == [f[0]] + tail;
        assert line[1..] == tail;
      }
    }
  }

  /** An opening quote switches the tokenizer into quoted mode. */
  lemma OpenQuote(body: string, out: seq<string>)
    ensures SplitFrom("\"" + body, false, [], out) == SplitFrom(body, true, [], out)
  {
    assert ("\"" + body)[1..] == body;
  }

  lemma QuotedField(f: string, rest: string, out: seq<string>)
    requires rest == [] || rest[0] == ','
    ensures SplitFrom("\"" + (DoubleQuotes(f) + "\"" + rest), false, [], out) == SplitFrom(rest, false, f, out)
  {
    OpenQuote(DoubleQuotes(f) + "\"" + rest, out);
    QuotedBody(f, rest, [], out);
    assert [] + f == f;
  }

  lemma EscapedField(f: string, rest: string, out: seq<string>)
    requires rest == [] || rest[0] == ','
    ensures SplitFrom(Escape(f) + rest, false, [], out) == SplitFrom(rest, false, f, out)
  {
    if NeedsQuoting(f) {
      assert Escape(f) + rest == "\"" + (DoubleQuotes(f) + "\"" + rest);
      QuotedField(f, rest, out);
    } else {
      BareField(f, rest, [], out);
      assert [] + f == f;
    }
  }

  lemma {:induction false} SplitJoined(fields: Row, out: seq<string>)
    requires |fields| >= 1
    ensures SplitFrom(EncodeRow(fields), false, [], out) == out + fields
  {
    var e := EscapeAll(fields);
    if |fields| == 1 {
      assert EncodeRow(fields) == e[0] + [];
      EscapedField(fields[0], [], out);
      assert out + [fields[0]] == out + fields;
    } else {
      var tail := EncodeRow(fields[1..]);
      assert EscapeAll(fields[1..]) == e[1..];
      assert EncodeRow(fields) == e[0] + ("," + tail);
      EscapedField(fields[0], "," + tail, out);
      assert ("," + tail)[1..] == tail;
      SplitJoined(fields[1..], out + [fields[0]]);
      assert out + [fields[0]] + fields[1..] == out + fields;
    }
  }

  /** The tokenizer recovers every non-empty row the escaper wrote, field for
      field. This holds even for fields with line breaks; those are lost only
      when the whole text is split into lines before tokenizing. */
  lemma SplitEncodedRow(fields: Row)
    requires |fields| >= 1
    ensures SplitLine(EncodeRow(fields)) == fields
  {
    SplitJoined(fields, []);
  }

  /** An encoded row carries a line break only if one of its fields does. */
  lemma EncodeRowNoBreaks(fields: Row)
    requires forall k :: 0 <= k < |fields| ==> '\r' !in fields[k] && '\n' !in fields[k]
    ensures '\r' !in EncodeRow(fields) && '\n' !in EncodeRow(fields)
  {
    JoinAvoids(EscapeAll(fields), ',', '\r');
    JoinAvoids(EscapeAll(fields), ',', '\n');
  }

  /** A row of two or more fields never encodes to the empty line. */
  lemma EncodeRowNonEmpty(fields: Row)
    requires |fields| >= 2
    ensures EncodeRow(fields) != []
  {
    var e := EscapeAll(fields);
    assert EncodeRow(fields) == e[0] + [','] + Join(e[1..], ',');
  }
}
