/** Whole CSV files: cut into lines, blank lines dropped, every line scanned by itself. */
module CsvFiles {
  import opened Csv

  // ---- lines ----

  /** `content.split(/\r?\n/)` with `line` read so far. */
  function SplitLines(content: string, line: string): seq<string>
    decreases |content|
  {
    if content == "" then [line]
    else if content[0] == '\n' then [line] + SplitLines(content[1..], "")
    else if content[0] == '\r' && |content| > 1 && content[1] == '\n' then [line] + SplitLines(content[2..], "")
    else SplitLines(content[1..], line + [content[0]])
  }

  function JoinLines(lines: seq<string>): string
    requires lines != []
  {
    if |lines| == 1 then lines[0] else lines[0] + "\r\n" + JoinLines(lines[1..])
  }

  lemma {:induction false} SplitFirst(line: string, before: string, tail: string)
    requires '\n' !in line && (tail == "" || tail[0] != '\n')
    ensures SplitLines(line + tail, before) == SplitLines(tail, before + line)
    decreases |line|
  {
    if line == "" {
      assert line + tail == tail && before + line == before;
    } else {
      assert (line + tail)[0] == line[0] && (line + tail)[1..] == line[1..] + tail && line[0] in line;
      assert |line| > 1 ==> (line + tail)[1] == line[1] && line[1] in line;
      SplitFirst(line[1..], before + [line[0]], tail);
      assert before + [line[0]] + line[1..] == before + line;
    }
  }

  lemma {:induction false} SplitUndoesJoin(lines: seq<string>)
    requires lines != [] && forall l | l in lines :: '\n' !in l
    ensures SplitLines(JoinLines(lines), "") == lines
    decreases |lines|
  {
    assert lines[0] in lines && "" + lines[0] == lines[0];
    if |lines| == 1 {
      SplitFirst(lines[0], "", "");
      assert lines[0] + "" == lines[0];
    } else {
      var tail := "\r\n" + JoinLines(lines[1..]);
      assert forall l | l in lines[1..] :: l in lines;
      SplitUndoesJoin(lines[1..]);
      SplitFirst(lines[0], "", tail);
      assert tail[2..] == JoinLines(lines[1..]);
      assert lines[0] + "\r\n" + JoinLines(lines[1..]) == lines[0] + tail;
    }
  }

  lemma {:induction false} SplitLeavesNoBreak(content: string, line: string)
    requires '\n' !in line
    ensures forall l | l in SplitLines(content, line) :: '\n' !in l
    decreases |content|
  {
    if content != "" {
      if content[0] == '\n' {
        SplitLeavesNoBreak(content[1..], "");
      } else if content[0] == '\r' && |content| > 1 && content[1] == '\n' {
        SplitLeavesNoBreak(content[2..], "");
      } else {
        SplitLeavesNoBreak(content[1..], line + [content[0]]);
      }
    }
  }

  /** Lines survive joining and splitting exactly if none holds a line feed. */
  lemma LinesRoundTripExactly(lines: seq<string>)
    requires lines != []
    ensures SplitLines(JoinLines(lines), "") == lines <==> forall l | l in lines :: '\n' !in l
  {
    SplitLeavesNoBreak(JoinLines(lines), "");
    if forall l | l in lines :: '\n' !in l {
      SplitUndoesJoin(lines);
    }
  }

  // ---- whole files ----

  /** What `trim` strips: the white space and line terminators of ECMAScript. */
  predicate Space(c: char) {
    || '\t' <= c <= '\r' || c == ' ' || c == '\U{A0}' || c == '\U{1680}' || '\U{2000}' <= c <= '\U{200A}'
    || c == '\U{2028}' || c == '\U{2029}' || c == '\U{202F}' || c == '\U{205F}' || c == '\U{3000}' || c == '\U{FEFF}'
  }

  /** The same characters by their code points. */
  lemma SpacesByCode(c: char)
    ensures Space(c) <==>
            || c as int in {9, 10, 11, 12, 13, 32, 160, 5760, 8232, 8233, 8239, 8287, 12288, 65279}
            || 8192 <= c as int <= 8202
  {
  }

  function Trim(s: string): string
    decreases |s|
  {
    if s != "" && Space(s[0]) then Trim(s[1..])
    else if s != "" && Space(s[|s| - 1]) then Trim(s[..|s| - 1])
    else s
  }

  /** `trim` takes white space off both ends, all of it, and nothing else. */
  lemma {:induction false} TrimExactly(s: string) returns (i: nat, j: nat)
    ensures i <= j <= |s| && Trim(s) == s[i..j]
    ensures forall k | 0 <= k < i || j <= k < |s| :: Space(s[k])
    ensures i < j ==> !Space(s[i]) && !Space(s[j - 1])
    decreases |s|
  {
    if s != "" && Space(s[0]) {
      i, j := TrimExactly(s[1..]);
      assert forall k | 1 <= k < |s| :: s[k] == s[1..][k - 1];
      i, j := i + 1, j + 1;
    } else if s != "" && Space(s[|s| - 1]) {
      i, j := TrimExactly(s[..|s| - 1]);
      assert forall k | 0 <= k < |s| - 1 :: s[k] == s[..|s| - 1][k];
    } else {
      i, j := 0, |s|;
    }
  }

  /** `.filter((line) => line.trim().length > 0)` */
  function NonBlank(lines: seq<string>): seq<string> {
    if lines == [] then [] else (if Trim(lines[0]) == "" then [] else [lines[0]]) + NonBlank(lines[1..])
  }

  function ScanAll(lines: seq<string>): (rows: seq<seq<string>>)
    ensures |rows| == |lines| && forall i | 0 <= i < |lines| :: rows[i] == Scan(lines[i], "", false)
  {
    if lines == [] then [] else [Scan(lines[0], "", false)] + ScanAll(lines[1..])
  }

  /** A file as the import sees it: cut into lines, blank ones dropped, each scanned by itself. */
  function ReadRows(content: string): seq<seq<string>> {
    ScanAll(NonBlank(SplitLines(content, "")))
  }

  /** Rows of fields and, for each field, whether the writer quotes it without need. */
  predicate IsTable(rows: seq<seq<string>>, quotes: seq<seq<bool>>) {
    |rows| == |quotes| && forall i | 0 <= i < |rows| :: 0 < |rows[i]| == |quotes[i]|
  }

  function EncodeRows(rows: seq<seq<string>>, quotes: seq<seq<bool>>): (lines: seq<string>)
    requires IsTable(rows, quotes)
    ensures |lines| == |rows| && forall i | 0 <= i < |rows| :: lines[i] == EncodeRow(rows[i], quotes[i])
  {
    if rows == [] then [] else [EncodeRow(rows[0], quotes[0])] + EncodeRows(rows[1..], quotes[1..])
  }

  /** The whole file; the last row may or may not end in a line break. */
  function EncodeFile(rows: seq<seq<string>>, quotes: seq<seq<bool>>, finalBreak: bool): string
    requires IsTable(rows, quotes) && rows != []
  {
    JoinLines(EncodeRows(rows, quotes) + if finalBreak then [""] else [])
  }

  /** One field of white space only, without a carriage return, written without quotes. */
  predicate BlankRow(fields: seq<string>, quote: seq<bool>)
    requires 0 < |fields| == |quote|
  {
    |fields| == 1 && !quote[0] && !MustQuote(fields[0]) && Trim(fields[0]) == ""
  }

  /** The rows that are not written as blank lines. */
  function Visible(rows: seq<seq<string>>, quotes: seq<seq<bool>>): (kept: seq<seq<string>>)
    requires IsTable(rows, quotes)
    ensures |kept| <= |rows|
    ensures |kept| == |rows| <==> forall i | 0 <= i < |rows| :: !BlankRow(rows[i], quotes[i])
    ensures |kept| == |rows| ==> kept == rows
  {
    if rows == [] then []
    else
      var rest := Visible(rows[1..], quotes[1..]);
      assert forall i | 1 <= i < |rows| :: rows[i] == rows[1..][i - 1] && quotes[i] == quotes[1..][i - 1];
      (if BlankRow(rows[0], quotes[0]) then [] else [rows[0]]) + rest
  }

  predicate NoBreakInside(rows: seq<seq<string>>) {
    forall i, k | 0 <= i < |rows| && 0 <= k < |rows[i]| :: '\n' !in rows[i][k]
  }

  lemma {:induction false} VisibleCharacterKeepsLine(s: string, c: char)
    requires c in s && !Space(c)
    ensures Trim(s) != ""
    decreases |s|
  {
    if Space(s[0]) {
      VisibleCharacterKeepsLine(s[1..], c);
    } else if Space(s[|s| - 1]) {
      VisibleCharacterKeepsLine(s[..|s| - 1], c);
    }
  }

  lemma BlankLineExactly(fields: seq<string>, quote: seq<bool>)
    requires 0 < |fields| == |quote|
    ensures Trim(EncodeRow(fields, quote)) == "" <==> BlankRow(fields, quote)
  {
    var line, first := EncodeRow(fields, quote), EncodeField(fields[0], quote[0]);
    if |fields| > 1 {
      assert line[|first|] == ',';
      VisibleCharacterKeepsLine(line, ',');
    } else if quote[0] || MustQuote(fields[0]) {
      assert line[0] == '"';
      VisibleCharacterKeepsLine(line, '"');
    }
  }

  lemma {:induction false} DoublingAddsNoBreak(f: string)
    requires '\n' !in f
    ensures '\n' !in DoubleQuotes(f)
    decreases |f|
  {
    if f != "" {
      assert f[0] in f;
      DoublingAddsNoBreak(f[1..]);
    }
  }

  lemma {:induction false} EncodingAddsNoBreak(fields: seq<string>, quote: seq<bool>)
    requires 0 < |fields| == |quote| && forall k | 0 <= k < |fields| :: '\n' !in fields[k]
    ensures '\n' !in EncodeRow(fields, quote)
    decreases |fields|
  {
    DoublingAddsNoBreak(fields[0]);
    if |fields| > 1 {
      EncodingAddsNoBreak(fields[1..], quote[1..]);
    }
  }

  lemma ReadOneMore(line: string, rest: seq<string>)
    ensures ScanAll(NonBlank([line] + rest))
         == (if Trim(line) == "" then [] else [Scan(line, "", false)]) + ScanAll(NonBlank(rest))
  {
    assert ([line] + rest)[1..] == rest && ([line] + NonBlank(rest))[1..] == NonBlank(rest);
    assert [] + NonBlank(rest) == NonBlank(rest);
  }

  lemma {:induction false} VisibleRowsAreRead(rows: seq<seq<string>>, quotes: seq<seq<bool>>)
    requires IsTable(rows, quotes)
    ensures ScanAll(NonBlank(EncodeRows(rows, quotes))) == Visible(rows, quotes)
    decreases |rows|
  {
    if rows != [] {
      BlankLineExactly(rows[0], quotes[0]);
      RowRoundTrip(rows[0], quotes[0]);
      VisibleRowsAreRead(rows[1..], quotes[1..]);
      assert EncodeRows(rows, quotes) == [EncodeRow(rows[0], quotes[0])] + EncodeRows(rows[1..], quotes[1..]);
      ReadOneMore(EncodeRow(rows[0], quotes[0]), EncodeRows(rows[1..], quotes[1..]));
    }
  }

  lemma {:induction false} FinalBreakIsDropped(lines: seq<string>)
    ensures NonBlank(lines + [""]) == NonBlank(lines)
    decreases |lines|
  {
    if lines != [] {
      assert (lines + [""])[1..] == lines[1..] + [""];
      FinalBreakIsDropped(lines[1..]);
    }
  }

  /** A table without line feeds is read back without the rows that were written as blank lines. */
  lemma FileGivesVisibleRows(rows: seq<seq<string>>, quotes: seq<seq<bool>>, finalBreak: bool)
    requires IsTable(rows, quotes) && rows != [] && NoBreakInside(rows)
    ensures ReadRows(EncodeFile(rows, quotes, finalBreak)) == Visible(rows, quotes)
  {
    var lines := EncodeRows(rows, quotes);
    var all := lines + if finalBreak then [""] else [];
    forall l | l in all ensures '\n' !in l {
      if l in lines {
        var i :| 0 <= i < |rows| && lines[i] == l;
        EncodingAddsNoBreak(rows[i], quotes[i]);
      }
    }
    SplitUndoesJoin(all);
    FinalBreakIsDropped(lines);
    assert lines + [] == lines;
    VisibleRowsAreRead(rows, quotes);
  }

  lemma {:induction false} ScanAddsNothing(rest: string, current: string, inQuotes: bool, c: char)
    requires c !in rest && c !in current && c != '"'
    ensures forall f | f in Scan(rest, current, inQuotes) :: c !in f
    decreases |rest|
  {
    if rest != "" {
      if rest[0] == '"' && inQuotes && |rest| > 1 && rest[1] == '"' {
        ScanAddsNothing(rest[2..], current + "\"", inQuotes, c);
      } else if rest[0] == '"' {
        ScanAddsNothing(rest[1..], current, !inQuotes, c);
      } else if rest[0] == ',' && !inQuotes {
        ScanAddsNothing(rest[1..], "", inQuotes, c);
      } else {
        ScanAddsNothing(rest[1..], current + [rest[0]], inQuotes, c);
      }
    }
  }

  lemma {:induction false} LinesGiveNoBreak(lines: seq<string>)
    requires forall l | l in lines :: '\n' !in l
    ensures NoBreakInside(ScanAll(NonBlank(lines)))
    decreases |lines|
  {
    if lines != [] {
      LinesGiveNoBreak(lines[1..]);
      ScanAddsNothing(lines[0], "", false, '\n');
      ReadOneMore(lines[0], lines[1..]);
      assert lines == [lines[0]] + lines[1..];
      var first, rest := Scan(lines[0], "", false), ScanAll(NonBlank(lines[1..]));
      forall i, k | 0 <= i < |[first] + rest| && 0 <= k < |([first] + rest)[i]|
        ensures '\n' !in ([first] + rest)[i][k]
      {
        assert ([first] + rest)[i][k] in ([first] + rest)[i];
      }
    }
  }

  /** Writing a table by the standard and reading it back gives the table exactly if no field holds a
      line feed, quoted or not, and no row is a single field of blanks written without quotes. */
  lemma FileRoundTripExactly(rows: seq<seq<string>>, quotes: seq<seq<bool>>, finalBreak: bool)
    requires IsTable(rows, quotes) && rows != []
    ensures ReadRows(EncodeFile(rows, quotes, finalBreak)) == rows <==>
            NoBreakInside(rows) && forall i | 0 <= i < |rows| :: !BlankRow(rows[i], quotes[i])
  {
    var content := EncodeFile(rows, quotes, finalBreak);
    SplitLeavesNoBreak(content, "");
    LinesGiveNoBreak(SplitLines(content, ""));
    if NoBreakInside(rows) {
      FileGivesVisibleRows(rows, quotes, finalBreak);
    }
  }

  predicate Plain(f: string) {
    '"' !in f && ',' !in f && '\r' !in f && '\n' !in f
  }

  /** The standard allows a quoted field to hold a line break, but a file is cut into lines before
      quotes are looked at: a one-field row comes back as two rows. */
  lemma QuotedBreakIsCut(a: string, b: string, quoted: bool)
    requires Plain(a) && Plain(b)
    ensures Scan(EncodeRow([a + "\n" + b], [quoted]), "", false) == [a + "\n" + b]
    ensures ReadRows(EncodeFile([[a + "\n" + b]], [[quoted]], false)) == [[a], [b]]
  {
    var field, first, second := a + "\n" + b, "\"" + a, b + "\"";
    RowRoundTrip([field], [quoted]);
    DoublesNothing(field);
    assert field[|a|] == '\n';
    assert EncodeRow([field], [quoted]) == first + "\n" + second;
    assert EncodeRows([[field]], [[quoted]]) + [] == [first + "\n" + second];
    CutInTwo(first, second);
    HalvesAreRead(a, b);
  }

  lemma HalvesAreRead(a: string, b: string)
    requires Plain(a) && Plain(b)
    ensures ScanAll(NonBlank(["\"" + a, b + "\""])) == [[a], [b]]
  {
    var first, second := "\"" + a, b + "\"";
    assert first[0] == '"' && second[|b|] == '"';
    VisibleCharacterKeepsLine(first, '"');
    VisibleCharacterKeepsLine(second, '"');
    ReadOneMore(second, []);
    ReadOneMore(first, [second]);
    assert [first, second] == [first] + [second] && [second] == [second] + [];
    OpenQuote(a);
    ScanInside(a, "");
    ScanPlain(b, "", "\"");
    assert "" + a == a && "" + b == b;
    assert Scan("\"", b, false) == Scan("\""[1..], b, true) == [b];
  }

  lemma {:induction false} DoublesNothing(f: string)
    requires '"' !in f
    ensures DoubleQuotes(f) == f
    decreases |f|
  {
    if f != "" {
      assert f[0] in f;
      DoublesNothing(f[1..]);
    }
  }

  lemma {:induction false} ScanInside(f: string, current: string)
    requires '"' !in f
    ensures Scan(f, current, true) == [current + f]
    decreases |f|
  {
    if f == "" {
      assert current + f == current;
    } else {
      assert f[0] in f;
      ScanInside(f[1..], current + [f[0]]);
      assert current + [f[0]] + f[1..] == current + f;
    }
  }

  lemma CutInTwo(a: string, b: string)
    requires '\n' !in a && '\n' !in b && '\r' !in a
    ensures SplitLines(a + "\n" + b, "") == [a, b]
  {
    var tail := "\n" + b;
    SplitUpTo(a, "", tail);
    SplitFirst(b, "", "");
    assert a + "\n" + b == a + tail && "" + a == a;
    assert b + "" == b && "" + b == b;
    assert SplitLines(tail, a) == [a] + SplitLines(b, "") by {
      assert tail[0] == '\n' && tail[1..] == b;
    }
  }

  lemma {:induction false} SplitUpTo(line: string, before: string, tail: string)
    requires '\n' !in line && '\r' !in line
    ensures SplitLines(line + tail, before) == SplitLines(tail, before + line)
    decreases |line|
  {
    if line == "" {
      assert line + tail == tail && before + line == before;
    } else {
      assert (line + tail)[0] == line[0] && (line + tail)[1..] == line[1..] + tail && line[0] in line;
      SplitUpTo(line[1..], before + [line[0]], tail);
      assert before + [line[0]] + line[1..] == before + line;
    }
  }

  /** A row of one empty field is written as an empty line, which is dropped. */
  lemma BlankRowVanishes(field: string)
    requires '\n' !in field
    ensures ReadRows(EncodeFile([[field], [""]], [[true], [false]], false)) == [[field]]
  {
    var rows, quotes := [[field], [""]], [[true], [false]];
    FileGivesVisibleRows(rows, quotes, false);
    assert rows[1..] == [[""]] && quotes[1..] == [[false]] && Trim("") == "";
    assert Visible(rows[1..], quotes[1..]) == Visible(rows[2..], quotes[2..]) == [];
  }
}
