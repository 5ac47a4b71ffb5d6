/** The string operations of the JavaScript runtime that the core relies on:
    `trim`, `toLowerCase`, `join`, `split`, the `\r\n?` replacement and
    number-to-decimal conversion. Strings are sequences of characters. */
module Strings {

  /** The characters `String.prototype.trim` removes: the ECMAScript WhiteSpace
      and LineTerminator code points. */
  predicate IsWhitespace(c: char) {
    || c == '\t' || c == '\n' || c == '\U{000B}' || c == '\U{000C}' || c == '\r'
    || c == ' ' || c == '\U{00A0}' || c == '\U{1680}'
    || ('\U{2000}' <= c <= '\U{200A}')
    || c == '\U{2028}' || c == '\U{2029}' || c == '\U{202F}' || c == '\U{205F}'
    || c == '\U{3000}' || c == '\U{FEFF}'
  }

  predicate AllWhitespace(s: string) {
    forall k :: 0 <= k < |s| ==> IsWhitespace(s[k])
  }

  /** Drops the leading whitespace: the result is a suffix of `s`, what was
      dropped is all whitespace, and the result does not start with whitespace. */
  function TrimStart(s: string): (r: string)
    ensures |r| <= |s| && r == s[|s| - |r|..]
    ensures AllWhitespace(s[..|s| - |r|])
    ensures r == [] || !IsWhitespace(r[0])
  {
    if |s| > 0 && IsWhitespace(s[0]) then
      var r := TrimStart(s[1..]);
      TrimStartStep(s, r);
      r
    else s
  }

  /** One whitespace character more in front of what `TrimStart` drops. */
  lemma TrimStartStep(s: string, r: string)
    requires |s| > 0 && IsWhitespace(s[0]) && |r| <= |s| - 1
    requires r == s[1..][|s| - 1 - |r|..] && AllWhitespace(s[1..][..|s| - 1 - |r|])
    ensures r == s[|s| - |r|..] && AllWhitespace(s[..|s| - |r|])
  {
    var n := |s| - |r|;
    assert s[1..][n - 1..] == s[n..];
    assert forall k :: 1 <= k < n ==> s[k] == s[1..][..n - 1][k - 1];
  }

  /** Drops the trailing whitespace, symmetrically to `TrimStart`. */
  function TrimEnd(s: string): (r: string)
    ensures |r| <= |s| && r == s[..|r|]
    ensures AllWhitespace(s[|r|..])
    ensures r == [] || !IsWhitespace(r[|r| - 1])
  {
    if |s| > 0 && IsWhitespace(s[|s| - 1]) then
      var r := TrimEnd(s[..|s| - 1]);
      assert s[|r|..] == s[..|s| - 1][|r|..] + [s[|s| - 1]];
      r
    else s
  }

  lemma TrimStartBlank(s: string)
    ensures TrimStart(s) == [] <==> AllWhitespace(s)
  {
    var a := TrimStart(s);
    if a != [] {
      assert a[0] == s[|s| - |a|];
    } else {
      assert s[..|s|] == s;
    }
  }

  lemma TrimEndKeepsStart(a: string)
    requires a == [] || !IsWhitespace(a[0])
    ensures TrimEnd(a) == [] <==> a == []
    ensures TrimEnd(a) != [] ==> TrimEnd(a)[0] == a[0]
  {
    var r := TrimEnd(a);
    assert r == [] ==> a[|r|..] == a;
  }

  /** `String.prototype.trim`: the input with its leading and trailing
      whitespace removed, and nothing else. */
  function Trim(s: string): (r: string)
    ensures |r| <= |s|
    ensures r == [] <==> AllWhitespace(s)
    ensures r != [] ==> !IsWhitespace(r[0]) && !IsWhitespace(r[|r| - 1])
  {
    var a := TrimStart(s);
    TrimStartBlank(s);
    TrimEndKeepsStart(a);
    TrimEnd(a)
  }

  /** `r` is a slice of `s` with nothing but whitespace before and after it. */
  predicate WhitespaceAround(s: string, r: string) {
    exists i, j :: 0 <= i <= j <= |s| && r == s[i..j] && AllWhitespace(s[..i]) && AllWhitespace(s[j..])
  }

  /** `trim` removes whitespace at both ends and nothing else: its result is
      a slice of the input with only whitespace before and after it. */
  lemma TrimIsSlice(s: string)
    ensures WhitespaceAround(s, Trim(s))
  {
    var a := TrimStart(s);
    var r := TrimEnd(a);
    var i := |s| - |a|;
    SliceCompose(s, a, r, i);
    assert AllWhitespace(s[..i]) && AllWhitespace(s[i + |r|..]);
    assert r == s[i..i + |r|];
  }

  lemma SliceCompose<T>(s: seq<T>, a: seq<T>, r: seq<T>, i: nat)
    requires i <= |s| && a == s[i..] && |r| <= |a| && r == a[..|r|]
    ensures r == s[i..i + |r|] && a[|r|..] == s[i + |r|..]
  {
  }

  /** A string that neither starts nor ends with whitespace is its own trim. */
  lemma TrimKeeps(s: string)
    requires s != [] && !IsWhitespace(s[0]) && !IsWhitespace(s[|s| - 1])
    ensures Trim(s) == s
  {
    assert TrimStart(s) == s;
    assert TrimEnd(s) == s;
  }

  /** ASCII case folding of one character. */
  function LowerChar(c: char): (r: char)
    ensures 'A' <= c <= 'Z' ==> r as int == c as int + 32
    ensures !('A' <= c <= 'Z') ==> r == c
  {
    if 'A' <= c <= 'Z' then (c as int + 32) as char else c
  }

  /** `String.prototype.toLowerCase`, restricted to ASCII letters. */
  function ToLowerAscii(s: string): (r: string)
    ensures |r| == |s|
    ensures forall k :: 0 <= k < |s| ==> r[k] == LowerChar(s[k])
  {
    if |s| == 0 then [] else [LowerChar(s[0])] + ToLowerAscii(s[1..])
  }

  lemma LowerCharIs(c: char, lower: char)
    requires 'a' <= lower <= 'z'
    ensures LowerChar(c) == lower <==> c == lower || c as int == lower as int - 32
  {
  }

  lemma SpellsTrueExactly(r: string)
    ensures r == "true" <==> |r| == 4 && r[0] == 't' && r[1] == 'r' && r[2] == 'u' && r[3] == 'e'
  {
  }

  /** The string spells "true" in some mix of letter cases. */
  predicate SpellsTrue(f: string) {
    && |f| == 4
    && (f[0] == 't' || f[0] == 'T') && (f[1] == 'r' || f[1] == 'R')
    && (f[2] == 'u' || f[2] == 'U') && (f[3] == 'e' || f[3] == 'E')
  }

  /** A field lowercases to "true" exactly when it spells "true" in any mix of cases. */
  lemma LowerIsTrueIff(s: string)
    ensures ToLowerAscii(s) == "true" <==> SpellsTrue(s)
  {
    if |s| == 4 {
      var r := ToLowerAscii(s);
      LowerCharIs(s[0], 't');
      LowerCharIs(s[1], 'r');
      LowerCharIs(s[2], 'u');
      LowerCharIs(s[3], 'e');
      SpellsTrueExactly(r);
    } else {
      SpellsTrueExactly(ToLowerAscii(s));
    }
  }

  /** `parts.join(sep)`: the empty array joins to the empty string. */
  function Join(parts: seq<string>, sep: char): string
  {
    if |parts| == 0 then []
    else if |parts| == 1 then parts[0]
    else parts[0] + [sep] + Join(parts[1..], sep)
  }

  lemma JoinCons(a: string, rest: seq<string>, sep: char)
    requires |rest| > 0
    ensures Join([a] + rest, sep) == a + [sep] + Join(rest, sep)
  {
    assert ([a] + rest)[1..] == rest;
  }

  /** The joined text holds exactly the characters of the pieces, and the
      separator when there are two or more pieces. */
  lemma {:induction false} JoinChars(parts: seq<string>, sep: char, c: char)
    ensures c in Join(parts, sep) <==>
      (c == sep && |parts| >= 2) || exists k :: 0 <= k < |parts| && c in parts[k]
  {
    if |parts| >= 2 {
      var rest := parts[1..];
      JoinChars(rest, sep, c);
      if c in Join(parts, sep) && c != sep && c !in parts[0] {
        var k :| 0 <= k < |rest| && c in rest[k];
        assert c in parts[k + 1];
      }
      if exists k :: 0 <= k < |parts| && c in parts[k] {
        var k :| 0 <= k < |parts| && c in parts[k];
        if k > 0 {
          assert c in rest[k - 1];
        }
      }
    }
  }

  /** A join starts with its first piece, and is longer when there is another. */
  lemma JoinStartsWithFirst(parts: seq<string>, sep: char)
    requires |parts| >= 1
    ensures parts[0] <= Join(parts, sep)
    ensures |Join(parts, sep)| == |parts[0]| <==> |parts| == 1
  {
  }

  /** `s.split(sep)` for a one-character separator: never empty, the pieces hold
      no separator and joining them back gives `s`. */
  function SplitOn(s: string, sep: char): (r: seq<string>)
    ensures |r| >= 1
    ensures forall k :: 0 <= k < |r| ==> sep !in r[k]
    ensures Join(r, sep) == s
  {
    if |s| == 0 then [[]]
    else
      var rest := SplitOn(s[1..], sep);
      if s[0] == sep then
        assert s == [sep] + s[1..];
        [[]] + rest
      else
        var r := [[s[0]] + rest[0]] + rest[1..];
        assert r[1..] == rest[1..];
        assert s == [s[0]] + s[1..];
        r
  }

  lemma {:induction false} SplitOnNoSep(x: string, sep: char)
    requires sep !in x
    ensures SplitOn(x, sep) == [x]
  {
    if |x| > 0 {
      SplitOnNoSep(x[1..], sep);
      assert [x[0]] + x[1..] == x;
    }
  }

  lemma {:induction false} SplitOnSep(x: string, sep: char, y: string)
    requires sep !in x
    ensures SplitOn(x + [sep] + y, sep) == [x] + SplitOn(y, sep)
  {
    var s := x + [sep] + y;
    if |x| == 0 {
      assert s[1..] == y;
    } else {
      assert s[1..] == x[1..] + [sep] + y;
      SplitOnSep(x[1..], sep, y);
      assert [x[0]] + x[1..] == x;
    }
  }

  /** `split` undoes `join` when no piece holds the separator. */
  lemma {:induction false} SplitOnJoin(parts: seq<string>, sep: char)
    requires |parts| >= 1
    requires forall k :: 0 <= k < |parts| ==> sep !in parts[k]
    ensures SplitOn(Join(parts, sep), sep) == parts
  {
    if |parts| == 1 {
      SplitOnNoSep(parts[0], sep);
    } else {
      SplitOnJoin(parts[1..], sep);
      SplitOnSep(parts[0], sep, Join(parts[1..], sep));
      assert [parts[0]] + parts[1..] == parts;
    }
  }

  /** A character that is neither the separator nor in any piece is not in the join. */
  lemma {:induction false} JoinAvoids(parts: seq<string>, sep: char, c: char)
    requires c != sep
    requires forall k :: 0 <= k < |parts| ==> c !in parts[k]
    ensures c !in Join(parts, sep)
  {
    if |parts| > 1 {
      JoinAvoids(parts[1..], sep, c);
    }
  }

  /** Every character of a piece occurs in the join. */
  lemma {:induction false} JoinKeeps(parts: seq<string>, sep: char, k: nat, c: char)
    requires k < |parts| && c in parts[k]
    ensures c in Join(parts, sep)
  {
    if |parts| > 1 && k > 0 {
      JoinKeeps(parts[1..], sep, k - 1, c);
    }
  }

  /** `s.replace(/\r\n?/g, '\n')`: every CRLF pair and every lone CR becomes LF. */
  function NormalizeNewlines(s: string): (r: string)
    ensures '\r' !in r
    ensures '\r' !in s ==> r == s
    ensures |r| <= |s|
    ensures forall c :: c in r && c != '\n' ==> c in s
  {
    if |s| == 0 then []
    else if s[0] == '\r' && |s| >= 2 && s[1] == '\n' then "\n" + NormalizeNewlines(s[2..])
    else if s[0] == '\r' then "\n" + NormalizeNewlines(s[1..])
    else
      assert s == [s[0]] + s[1..];
      assert forall c :: c in s[1..] ==> c in s;
      [s[0]] + NormalizeNewlines(s[1..])
  }

  /** A prefix without CR is copied through unchanged. */
  lemma {:induction false} NormalizeCrFreePrefix(x: string, y: string)
    requires '\r' !in x
    ensures NormalizeNewlines(x + y) == x + NormalizeNewlines(y)
  {
    if |x| == 0 {
      assert x + y == y;
    } else {
      var c, rest := x[0], x[1..];
      ConsSplit(x, y);
      assert '\r' !in rest by {
        assert forall k :: 0 <= k < |rest| ==> rest[k] == x[k + 1];
      }
      NormalizeCons(c, rest + y);
      NormalizeCrFreePrefix(rest, y);
      ConsAssoc(c, rest, NormalizeNewlines(y));
    }
  }

  lemma ConsSplit<T>(x: seq<T>, y: seq<T>)
    requires |x| > 0
    ensures x + y == [x[0]] + (x[1..] + y)
    ensures x == [x[0]] + x[1..]
  {
  }

  lemma ConsAssoc<T>(c: T, a: seq<T>, b: seq<T>)
    ensures [c] + (a + b) == ([c] + a) + b
  {
  }

  lemma Assoc<T>(a: seq<T>, b: seq<T>, c: seq<T>)
    ensures a + (b + c) == a + b + c
  {
  }

  lemma NormalizeCons(c: char, t: string)
    requires c != '\r'
    ensures NormalizeNewlines([c] + t) == [c] + NormalizeNewlines(t)
  {
    assert ([c] + t)[1..] == t;
  }

  lemma NormalizeCrLfHead(y: string)
    ensures NormalizeNewlines("\r\n" + y) == "\n" + NormalizeNewlines(y)
  {
    var t := "\r\n" + y;
    assert t[0] == '\r' && t[1] == '\n' && t[2..] == y;
  }

  lemma NormalizeLoneCrHead(y: string)
    requires y == [] || y[0] != '\n'
    ensures NormalizeNewlines("\r" + y) == "\n" + NormalizeNewlines(y)
  {
    var t := "\r" + y;
    assert t[0] == '\r' && t[1..] == y;
  }

  /** A CRLF pair becomes one LF. */
  lemma NormalizeCrLf(x: string, y: string)
    requires '\r' !in x
    ensures NormalizeNewlines(x + "\r\n" + y) == x + "\n" + NormalizeNewlines(y)
  {
    Assoc(x, "\r\n", y);
    NormalizeCrFreePrefix(x, "\r\n" + y);
    NormalizeCrLfHead(y);
    Assoc(x, "\n", NormalizeNewlines(y));
  }

  /** A CR not followed by LF becomes one LF. */
  lemma NormalizeLoneCr(x: string, y: string)
    requires '\r' !in x
    requires y == [] || y[0] != '\n'
    ensures NormalizeNewlines(x + "\r" + y) == x + "\n" + NormalizeNewlines(y)
  {
    Assoc(x, "\r", y);
    NormalizeCrFreePrefix(x, "\r" + y);
    NormalizeLoneCrHead(y);
    Assoc(x, "\n", NormalizeNewlines(y));
  }

  /** `lines.filter(Boolean)`: the empty strings are dropped, the rest keep their order. */
  function DropBlank(lines: seq<string>): (r: seq<string>)
    ensures |r| <= |lines|
    ensures forall k :: 0 <= k < |r| ==> r[k] != []
    ensures forall x :: x in r <==> x in lines && x != []
    ensures (forall k :: 0 <= k < |lines| ==> lines[k] != []) ==> r == lines
    ensures (forall k :: 0 <= k < |lines| ==> lines[k] == []) ==> r == []
  {
    if |lines| == 0 then []
    else if lines[0] == [] then DropBlank(lines[1..])
    else [lines[0]] + DropBlank(lines[1..])
  }

  /** Filtering a concatenation filters each part, so the kept lines stay in order. */
  lemma {:induction false} DropBlankAppend(a: seq<string>, b: seq<string>)
    ensures DropBlank(a + b) == DropBlank(a) + DropBlank(b)
  {
    if |a| == 0 {
      assert a + b == b;
    } else {
      assert (a + b)[0] == a[0];
      assert (a + b)[1..] == a[1..] + b;
      DropBlankAppend(a[1..], b);
    }
  }

  function Digit(d: nat): (c: char)
    requires d < 10
    ensures '0' <= c <= '9' && c as int - '0' as int == d
  {
    ('0' as int + d) as char
  }

  /** `String(n)` for a natural number: its decimal digits, most significant first. */
  function NatToString(n: nat): (r: string)
    ensures |r| >= 1
    ensures forall k :: 0 <= k < |r| ==> '0' <= r[k] <= '9'
    ensures DecimalValue(r) == n
    ensures |r| == 1 || r[0] != '0'
  {
    if n < 10 then [Digit(n)]
    else
      var p := NatToString(n / 10);
      var r := p + [Digit(n % 10)];
      assert r[..|r| - 1] == p;
      assert |p| == 1 ==> p[..0] == [] && DecimalValue(p) == p[0] as int - '0' as int;
      r
  }

  /** The number a string of decimal digits denotes. */
  function DecimalValue(s: string): nat
    requires forall k :: 0 <= k < |s| ==> '0' <= s[k] <= '9'
  {
    if |s| == 0 then 0
    else 10 * DecimalValue(s[..|s| - 1]) + (s[|s| - 1] as int - '0' as int)
  }
}
