/** The CSV ingestion pipeline of the dashboard's inline upload widget:
    the line tokenizer `splitCSVLine`, the preview sampler `parseCSVPreview`
    and the tolerant column check `validateColumns`. */
module CsvUpload {
  import opened JsStrings

  // ---------------------------------------------------------------------
  // splitCSVLine
  // ---------------------------------------------------------------------

  /** The fields the tokenizer produces for the rest of a line `s`, when it
      enters `s` inside (`quoted`) or outside quote mode: a `"` flips the
      mode and is dropped, a `,` outside quotes closes the field, anything
      else extends the current field. */
  function Fields(s: string, quoted: bool): (fs: seq<string>)
    ensures |fs| >= 1
    decreases |s|
  {
    if s == [] then [""]
    else if s[0] == '"' then Fields(s[1..], !quoted)
    else if s[0] == ',' && !quoted then [""] + Fields(s[1..], quoted)
    else
      var rest := Fields(s[1..], quoted);
      [[s[0]] + rest[0]] + rest[1..]
  }

  /** The finished fields `done`, the field `current` being built, and the
      fields still to come for the unread rest of the line, put together. */
  ghost function Stitch(done: seq<string>, current: string, rest: seq<string>): seq<string>
    requires |rest| >= 1
  {
    done + [current + rest[0]] + rest[1..]
  }

  lemma StitchStart(fs: seq<string>)
    requires |fs| >= 1
    ensures Stitch([], "", fs) == fs
  {
    assert "" + fs[0] == fs[0];
    assert [fs[0]] + fs[1..] == fs;
  }

  lemma StitchComma(done: seq<string>, current: string, rest: seq<string>)
    requires |rest| >= 1
    ensures Stitch(done, current, [""] + rest) == Stitch(done + [current], "", rest)
  {
    assert current + "" == current;
    assert "" + rest[0] == rest[0];
    assert ([""] + rest)[1..] == rest == [rest[0]] + rest[1..];
  }

  lemma StitchChar(done: seq<string>, current: string, c: char, rest: seq<string>)
    requires |rest| >= 1
    ensures Stitch(done, current, [[c] + rest[0]] + rest[1..]) == Stitch(done, current + [c], rest)
  {
    assert current + ([c] + rest[0]) == (current + [c]) + rest[0];
  }

  lemma StitchEnd(done: seq<string>, current: string)
    ensures Stitch(done, current, [""]) == done + [current]
  {
    assert current + "" == current;
  }

  /** `splitCSVLine`: scans the line once, left to right. */
  method SplitCsvLine(line: string) returns (result: seq<string>)
    ensures result == Fields(line, false)
  {
    result := [];
    var current := "";
    var inQuotes := false;
    StitchStart(Fields(line, false));
    for i := 0 to |line|
      invariant Stitch(result, current, Fields(line[i..], inQuotes)) == Fields(line, false)
    {
      var ch := line[i];
      assert line[i..][0] == ch && line[i..][1..] == line[i + 1..];
      if ch == '"' {
        inQuotes := !inQuotes;
        continue;
      }
      if ch == ',' && !inQuotes {
        ghost var rest := Fields(line[i + 1..], inQuotes);
        StitchComma(result, current, rest);
        result := result + [current];
        current := "";
        continue;
      }
      ghost var rest := Fields(line[i + 1..], inQuotes);
      StitchChar(result, current, ch, rest);
      current := current + [ch];
    }
    assert line[|line|..] == [];
    StitchEnd(result, current);
    result := result + [current];
  }

  /** The number of commas the tokenizer meets outside quote mode. */
  function UnquotedCommas(s: string, quoted: bool): nat
    decreases |s|
  {
    if s == [] then 0
    else if s[0] == '"' then UnquotedCommas(s[1..], !quoted)
    else (if s[0] == ',' && !quoted then 1 else 0) + UnquotedCommas(s[1..], quoted)
  }

  /** The line with every `"` and every comma met outside quote mode removed. */
  function Stripped(s: string, quoted: bool): string
    decreases |s|
  {
    if s == [] then ""
    else if s[0] == '"' then Stripped(s[1..], !quoted)
    else if s[0] == ',' && !quoted then Stripped(s[1..], quoted)
    else [s[0]] + Stripped(s[1..], quoted)
  }

  /** The fields laid end to end. */
  function Concat(fs: seq<string>): string
    decreases |fs|
  {
    if fs == [] then "" else fs[0] + Concat(fs[1..])
  }

  /** One field per comma met outside quote mode, plus the last one. */
  lemma {:induction false} FieldsCount(s: string, quoted: bool)
    ensures |Fields(s, quoted)| == UnquotedCommas(s, quoted) + 1
    decreases |s|
  {
    if s != [] {
      FieldsCount(s[1..], if s[0] == '"' then !quoted else quoted);
    }
  }

  /** No field ever holds a quote character. */
  lemma {:induction false} FieldsQuoteFree(s: string, quoted: bool)
    ensures forall k :: 0 <= k < |Fields(s, quoted)| ==> '"' !in Fields(s, quoted)[k]
    decreases |s|
  {
    if s != [] {
      var q := if s[0] == '"' then !quoted else quoted;
      FieldsQuoteFree(s[1..], q);
      if s[0] != '"' && !(s[0] == ',' && !quoted) {
        var rest := Fields(s[1..], q);
        assert '"' !in [s[0]] + rest[0] by {
          assert '"' !in rest[0];
        }
        assert Fields(s, quoted)[1..] == rest[1..];
      }
    }
  }

  lemma {:induction false} ConcatCons(x: string, fs: seq<string>)
    requires |fs| >= 1
    ensures Concat([x + fs[0]] + fs[1..]) == x + Concat(fs)
  {
    assert ([x + fs[0]] + fs[1..])[1..] == fs[1..];
  }

  /** Laid end to end, the fields are the line without its quotes and
      without the commas that separated them. */
  lemma {:induction false} FieldsConcat(s: string, quoted: bool)
    ensures Concat(Fields(s, quoted)) == Stripped(s, quoted)
    decreases |s|
  {
    if s == [] {
    } else if s[0] == '"' {
      FieldsConcat(s[1..], !quoted);
    } else if s[0] == ',' && !quoted {
      FieldsConcat(s[1..], quoted);
      assert ([""] + Fields(s[1..], quoted))[1..] == Fields(s[1..], quoted);
    } else {
      FieldsConcat(s[1..], quoted);
      ConcatCons([s[0]], Fields(s[1..], quoted));
    }
  }

  /** On a line without quotes the tokenizer is a plain `split(",")`. */
  lemma {:induction false} FieldsWithoutQuotes(s: string)
    requires '"' !in s
    ensures Fields(s, false) == SplitOn(s, ',')
    decreases |s|
  {
    if s != [] {
      assert '"' !in s[1..] by {
        forall k | 0 <= k < |s[1..]| ensures s[1..][k] != '"' {
          assert s[1..][k] == s[k + 1];
        }
      }
      FieldsWithoutQuotes(s[1..]);
      assert s == [s[0]] + s[1..];
      if s[0] == ',' {
        SplitOnSepCons(s[1..], ',');
      } else {
        SplitOnCons(s[0], s[1..], ',');
      }
    }
  }

  lemma ExampleQuotedTail()
    ensures Fields("c\",d", true) == ["c", "d"]
  {
    var t := "c\",d";
    assert t[1..] == "\",d" && t[2..] == ",d" && t[3..] == "d" && t[4..] == "";
    assert ['d'] + "" == "d" && ['c'] + "" == "c";
    assert Fields(t[3..], false) == ["d"];
    assert Fields(t[2..], false) == ["", "d"];
    assert Fields(t[1..], true) == ["", "d"];
  }

  lemma ExampleQuotedField()
    ensures Fields("\"b,c\",d", false) == ["b,c", "d"]
  {
    var t := "\"b,c\",d";
    assert t[1..] == "b,c\",d" && t[2..] == ",c\",d" && t[3..] == "c\",d";
    ExampleQuotedTail();
    assert [','] + "c" == ",c" && ['b'] + ",c" == "b,c";
    assert Fields(t[2..], true) == [",c", "d"];
    assert Fields(t[1..], true) == ["b,c", "d"];
  }

  /** The worked example: a quoted comma stays inside its field. */
  lemma QuotedCommaExample()
    ensures Fields("a,\"b,c\",d", false) == ["a", "b,c", "d"]
  {
    var line := "a,\"b,c\",d";
    assert line[0] == 'a' && line[1..] == ",\"b,c\",d" && line[2..] == "\"b,c\",d";
    ExampleQuotedField();
    assert Fields(line[1..], false) == ["", "b,c", "d"];
    assert ['a'] + "" == "a";
  }

  // ---------------------------------------------------------------------
  // parseCSVPreview
  // ---------------------------------------------------------------------

  /** A sample row: header name to trimmed cell value. */
  type Row = map<string, string>

  /** What `parseCSVPreview` returns. */
  datatype Preview = Preview(headers: seq<string>, rows: seq<Row>)

  /** The number of data lines after the header that are looked at. */
  const SampleLines: nat := 50

  function Min(a: int, b: int): int {
    if a < b then a else b
  }

  /** A line with one trailing carriage return removed. */
  function DropCR(l: string): (r: string)
    ensures l == r || l == r + "\r"
    ensures '\r' !in l ==> r == l
    ensures |l| > 0 && l[|l| - 1] == '\r' ==> |r| == |l| - 1
  {
    if |l| > 0 && l[|l| - 1] == '\r' then l[..|l| - 1] else l
  }

  /** `text.split(/\r?\n/)`: split at every line feed and drop the carriage
      return that may precede it. The last piece is followed by no line
      feed, so a carriage return at its end is not part of a separator and
      stays. */
  function SplitLines(text: string): (lines: seq<string>)
    ensures |lines| == |SplitOn(text, '\n')|
    ensures forall k :: 0 <= k < |lines| - 1 ==> lines[k] == DropCR(SplitOn(text, '\n')[k])
    ensures lines[|lines| - 1] == SplitOn(text, '\n')[|lines| - 1]
  {
    var parts := SplitOn(text, '\n');
    seq(|parts|, k requires 0 <= k < |parts| => if k < |parts| - 1 then DropCR(parts[k]) else parts[k])
  }

  /** Without carriage returns, the lines are exactly the pieces between
      line feeds. */
  lemma SplitLinesWithoutCR(text: string)
    requires '\r' !in text
    ensures SplitLines(text) == SplitOn(text, '\n')
  {
    var parts := SplitOn(text, '\n');
    SplitOnWithin(text, '\n');
    forall k | 0 <= k < |parts| ensures DropCR(parts[k]) == parts[k] {
      assert '\r' !in parts[k];
    }
  }

  /** A text with no line feed is one line, kept whole: a carriage return
      at its end is not followed by a line feed and stays. */
  lemma SingleLineKeepsCR(text: string)
    requires '\n' !in text
    ensures SplitLines(text) == [text]
  {
  }

  /** A carriage return directly before a line feed belongs to the
      separator; the one ending the last line does not. */
  lemma CarriageReturnExample()
    ensures SplitLines("a\r\nb\r") == ["a", "b\r"]
  {
    var pieces := ["a\r", "b\r"];
    assert '\n' !in pieces[0] && '\n' !in pieces[1];
    assert pieces[1..] == ["b\r"] && Join(["b\r"], '\n') == "b\r";
    assert Join(pieces, '\n') == "a\r\nb\r";
    SplitOnJoin(pieces, '\n');
    assert DropCR("a\r") == "a";
  }

  /** `lines.filter((l) => l.trim())`: the lines that are not blank, in order. */
  function NonBlank(lines: seq<string>): (kept: seq<string>)
    ensures |kept| <= |lines|
    decreases |lines|
  {
    if lines == [] then []
    else (if Trim(lines[0]) != "" then [lines[0]] else []) + NonBlank(lines[1..])
  }

  /** The lines of `text` that `parseCSVPreview` works on. */
  function Lines(text: string): (lines: seq<string>)
    ensures |lines| <= |SplitOn(text, '\n')|
  {
    NonBlank(SplitLines(text))
  }

  /** Each piece trimmed. */
  function TrimAll(pieces: seq<string>): (r: seq<string>)
    ensures |r| == |pieces|
    ensures forall k :: 0 <= k < |r| ==> r[k] == Trim(pieces[k])
  {
    seq(|pieces|, k requires 0 <= k < |pieces| => Trim(pieces[k]))
  }

  /** `line.split(",").map((h) => h.trim())`: the header names. Quotes are
      not honoured here. */
  function HeaderNames(line: string): (names: seq<string>)
    ensures |names| >= 1
  {
    TrimAll(SplitOn(line, ','))
  }

  /** The row object built by `headers.forEach((h, idx) => { row[h] = values[idx].trim(); })`:
      one write per header, in header order. */
  function RowOf(headers: seq<string>, values: seq<string>): (row: Row)
    requires |values| == |headers|
    decreases |headers|
  {
    if headers == [] then map[]
    else
      var n := |headers| - 1;
      RowOf(headers[..n], values[..n])[headers[n] := Trim(values[n])]
  }

  /** The rows contributed by the candidate lines, in order: a line whose
      `splitCSVLine` field count equals the header count gives one row,
      any other line none. */
  function SampleRows(headers: seq<string>, candidates: seq<string>): (rows: seq<Row>)
    ensures |rows| <= |candidates|
    decreases |candidates|
  {
    if candidates == [] then []
    else
      var n := |candidates| - 1;
      var earlier := SampleRows(headers, candidates[..n]);
      var values := Fields(candidates[n], false);
      if |values| == |headers| then earlier + [RowOf(headers, values)] else earlier
  }

  /** The preview of the non-blank lines of a text: the header names of the
      first line and the rows of at most the next `SampleLines` lines. */
  function PreviewOf(lines: seq<string>): (p: Preview)
    ensures |lines| == 0 ==> p == Preview([], [])
    ensures |lines| >= 1 ==> |p.rows| <= Min(SampleLines, |lines| - 1)
  {
    if |lines| < 1 then Preview([], [])
    else
      var headers := HeaderNames(lines[0]);
      Preview(headers, SampleRows(headers, lines[1..Min(|lines|, SampleLines + 1)]))
  }

  /** Looking at one more candidate line appends its row, if it has one. */
  lemma {:induction false} SampleRowsStep(headers: seq<string>, lines: seq<string>, i: nat)
    requires 1 <= i < |lines|
    ensures var values := Fields(lines[i], false);
      SampleRows(headers, lines[1..i + 1])
      == SampleRows(headers, lines[1..i]) + (if |values| == |headers| then [RowOf(headers, values)] else [])
  {
    var c := lines[1..i + 1];
    assert |c| == i && c[..i - 1] == lines[1..i] && c[i - 1] == lines[i];
  }

  /** The `forEach` that fills one row object in place. */
  method BuildRow(headers: seq<string>, values: seq<string>) returns (row: Row)
    requires |values| == |headers|
    ensures row == RowOf(headers, values)
  {
    row := map[];
    for idx := 0 to |headers|
      invariant row == RowOf(headers[..idx], values[..idx])
    {
      assert headers[..idx + 1][..idx] == headers[..idx];
      assert values[..idx + 1][..idx] == values[..idx];
      row := row[headers[idx] := Trim(values[idx])];
    }
    assert headers[..|headers|] == headers && values[..|values|] == values;
  }

  /** `parseCSVPreview`. */
  method ParseCsvPreview(text: string) returns (p: Preview)
    ensures p == PreviewOf(Lines(text))
  {
    var lines := Lines(text);
    if |lines| < 1 {
      return Preview([], []);
    }
    var headers := HeaderNames(lines[0]);
    var rows: seq<Row> := [];
    var bound := Min(|lines|, SampleLines + 1);
    for i := 1 to bound
      invariant rows == SampleRows(headers, lines[1..i])
    {
      SampleRowsStep(headers, lines, i);
      var values := SplitCsvLine(lines[i]);
      if |values| != |headers| {
        continue;
      }
      var row := BuildRow(headers, values);
      rows := rows + [row];
    }
    return Preview(headers, rows);
  }

  // Properties of the preview

  /** The filter keeps exactly the non-blank lines. */
  lemma {:induction false} NonBlankMembers(lines: seq<string>)
    ensures forall l :: l in NonBlank(lines) <==> l in lines && Trim(l) != ""
    decreases |lines|
  {
    if lines != [] {
      NonBlankMembers(lines[1..]);
      assert lines == [lines[0]] + lines[1..];
    }
  }

  /** The filter keeps the order of the lines it keeps. */
  lemma {:induction false} NonBlankAppend(a: seq<string>, b: seq<string>)
    ensures NonBlank(a + b) == NonBlank(a) + NonBlank(b)
    decreases |a|
  {
    if a == [] {
      assert a + b == b;
    } else {
      assert (a + b)[1..] == a[1..] + b;
      NonBlankAppend(a[1..], b);
    }
  }

  /** The pieces of a blank text are blank lines, which the filter drops. */
  lemma BlankTextNoLines(text: string)
    requires Blank(text)
    ensures Lines(text) == []
  {
    var parts := SplitOn(text, '\n');
    var lines := SplitLines(text);
    SplitOnWithin(text, '\n');
    forall k | 0 <= k < |lines| ensures Trim(lines[k]) == "" {
      var piece := parts[k];
      assert Blank(piece) by {
        forall m | 0 <= m < |piece| ensures IsWhitespace(piece[m]) {
          assert piece[m] in parts[k];
          assert piece[m] in text;
          var i :| 0 <= i < |text| && text[i] == piece[m];
        }
      }
      assert Blank(lines[k]) by {
        forall m | 0 <= m < |lines[k]| ensures IsWhitespace(lines[k][m]) {
          assert lines[k][m] == piece[m];
        }
      }
      TrimEmptyIff(lines[k]);
    }
    NonBlankNone(lines);
  }

  /** A filter over lines that are all blank keeps nothing. */
  lemma {:induction false} NonBlankNone(lines: seq<string>)
    requires forall k :: 0 <= k < |lines| ==> Trim(lines[k]) == ""
    ensures NonBlank(lines) == []
    decreases |lines|
  {
    if lines != [] {
      NonBlankNone(lines[1..]);
    }
  }

  /** A non-whitespace character of the text lies on some line the filter keeps. */
  lemma TextWithContentHasLine(text: string, m: nat)
    requires m < |text| && !IsWhitespace(text[m])
    ensures Lines(text) != []
  {
    var parts := SplitOn(text, '\n');
    var lines := SplitLines(text);
    SplitOnCovers(text, '\n', m);
    var j :| 0 <= j < |parts| && text[m] in parts[j];
    var n :| 0 <= n < |parts[j]| && parts[j][n] == text[m];
    assert n < |lines[j]| && lines[j][n] == text[m];
    TrimEmptyIff(lines[j]);
    NonBlankMembers(lines);
    assert lines[j] in NonBlank(lines);
  }

  /** A text yields no lines at all exactly when it is blank. */
  lemma LinesEmptyIff(text: string)
    ensures Lines(text) == [] <==> Blank(text)
  {
    if Blank(text) {
      BlankTextNoLines(text);
    } else {
      var m :| 0 <= m < |text| && !IsWhitespace(text[m]);
      TextWithContentHasLine(text, m);
    }
  }

  /** Empty or whitespace-only text gives no headers and no rows, and only
      such text gives no headers. */
  lemma BlankTextPreview(text: string)
    ensures Blank(text) ==> PreviewOf(Lines(text)) == Preview([], [])
    ensures PreviewOf(Lines(text)).headers == [] <==> Blank(text)
  {
    LinesEmptyIff(text);
  }

  /** The header names: one per comma of the first line plus one, each the
      trimmed piece between commas, so none is padded or holds a comma. */
  lemma {:induction false} HeaderShape(line: string)
    ensures |HeaderNames(line)| == Count(line, ',') + 1
    ensures forall k :: 0 <= k < |HeaderNames(line)| ==>
      HeaderNames(line)[k] == Trim(SplitOn(line, ',')[k])
      && Trim(HeaderNames(line)[k]) == HeaderNames(line)[k]
      && ',' !in HeaderNames(line)[k]
  {
    var pieces := SplitOn(line, ',');
    SplitOnCount(line, ',');
    SplitOnPiecesFree(line, ',');
    forall k | 0 <= k < |pieces|
      ensures Trim(Trim(pieces[k])) == Trim(pieces[k]) && ',' !in Trim(pieces[k])
    {
      TrimIdempotent(pieces[k]);
      TrimWithin(pieces[k], ',');
    }
  }

  /** Writing the header names back out with commas and parsing them again
      gives the same names. */
  lemma HeaderNamesRoundTrip(line: string)
    ensures HeaderNames(Join(HeaderNames(line), ',')) == HeaderNames(line)
  {
    var names := HeaderNames(line);
    HeaderShape(line);
    SplitOnJoin(names, ',');
  }

  /** Only the header line and the next `SampleLines` lines matter: lines
      after them never change the preview. */
  lemma LaterLinesIgnored(lines: seq<string>, more: seq<string>)
    requires |lines| >= SampleLines + 1
    ensures PreviewOf(lines + more) == PreviewOf(lines)
  {
    assert (lines + more)[0] == lines[0];
    assert (lines + more)[1..SampleLines + 1] == lines[1..SampleLines + 1];
  }

  /** Rows from consecutive runs of candidate lines are concatenated, in order. */
  lemma {:induction false} SampleRowsAppend(headers: seq<string>, a: seq<string>, b: seq<string>)
    ensures SampleRows(headers, a + b) == SampleRows(headers, a) + SampleRows(headers, b)
    decreases |b|
  {
    if b == [] {
      assert a + b == a;
    } else {
      var n := |b| - 1;
      assert (a + b)[..|a| + n] == a + b[..n];
      assert (a + b)[|a| + n] == b[n];
      SampleRowsAppend(headers, a, b[..n]);
    }
  }

  /** A candidate line contributes a row exactly when its field count is the
      header count, and that row sits between the rows of the lines before
      it and those of the lines after it. */
  lemma CandidateContributes(headers: seq<string>, candidates: seq<string>, k: nat)
    requires k < |candidates|
    ensures var values := Fields(candidates[k], false);
      SampleRows(headers, candidates)
      == SampleRows(headers, candidates[..k])
         + (if |values| == |headers| then [RowOf(headers, values)] else [])
         + SampleRows(headers, candidates[k + 1..])
  {
    var c := candidates;
    assert c == c[..k] + [c[k]] + c[k + 1..];
    SampleRowsAppend(headers, c[..k] + [c[k]], c[k + 1..]);
    SampleRowsAppend(headers, c[..k], [c[k]]);
    assert [c[k]][..0] == [];
  }

  /** When every candidate line has the header's field count, each gives a row. */
  lemma {:induction false} AllCandidatesFit(headers: seq<string>, candidates: seq<string>)
    requires forall k :: 0 <= k < |candidates| ==> |Fields(candidates[k], false)| == |headers|
    ensures |SampleRows(headers, candidates)| == |candidates|
    decreases |candidates|
  {
    if candidates != [] {
      var n := |candidates| - 1;
      AllCandidatesFit(headers, candidates[..n]);
    }
  }

  /** A file whose data lines all have the header's field count previews
      `min(k, 50)` of its `k` data lines. */
  lemma WellFormedRowCount(lines: seq<string>)
    requires |lines| >= 1
    requires forall k :: 1 <= k < |lines| ==> |Fields(lines[k], false)| == |HeaderNames(lines[0])|
    ensures |PreviewOf(lines).rows| == Min(|lines| - 1, SampleLines)
  {
    var c := lines[1..Min(|lines|, SampleLines + 1)];
    forall k | 0 <= k < |c| ensures |Fields(c[k], false)| == |HeaderNames(lines[0])| {
      assert c[k] == lines[k + 1];
    }
    AllCandidatesFit(HeaderNames(lines[0]), c);
  }

  /** Every row has exactly the header names as keys. */
  lemma {:induction false} RowKeys(headers: seq<string>, values: seq<string>)
    requires |values| == |headers|
    ensures forall h :: h in RowOf(headers, values) <==> h in headers
    decreases |headers|
  {
    if headers != [] {
      var n := |headers| - 1;
      RowKeys(headers[..n], values[..n]);
      assert headers == headers[..n] + [headers[n]];
    }
  }

  /** A header name maps to the trimmed value at its last position: with
      duplicate names the last write wins. */
  lemma {:induction false} RowLastWriteWins(headers: seq<string>, values: seq<string>, i: nat)
    requires |values| == |headers| && i < |headers|
    requires forall j :: i < j < |headers| ==> headers[j] != headers[i]
    ensures headers[i] in RowOf(headers, values)
    ensures RowOf(headers, values)[headers[i]] == Trim(values[i])
    decreases |headers|
  {
    var n := |headers| - 1;
    if i < n {
      RowLastWriteWins(headers[..n], values[..n], i);
    }
  }

  /** Every sampled row has exactly the header names as keys. */
  lemma {:induction false} SampleRowKeys(headers: seq<string>, candidates: seq<string>)
    ensures forall r, h :: r in SampleRows(headers, candidates) ==> (h in r <==> h in headers)
    decreases |candidates|
  {
    if candidates != [] {
      var n := |candidates| - 1;
      SampleRowKeys(headers, candidates[..n]);
      var values := Fields(candidates[n], false);
      if |values| == |headers| {
        RowKeys(headers, values);
      }
    }
  }

  lemma ExampleHeader()
    ensures HeaderNames("a,b") == ["a", "b"]
  {
    var header := "a,b";
    assert header[..1] == "a" && header[1] == ',' && header[2..] == "b";
    IndexOfFirst(header, ',', 1);
    assert SplitOn(header, ',') == ["a", "b"];
    TrimOfTrimmed("a");
    TrimOfTrimmed("b");
  }

  lemma ExampleFields()
    ensures |Fields("1,2,3", false)| == 3
    ensures Fields("4,5", false) == ["4", "5"]
  {
    var ragged, good := "1,2,3", "4,5";
    assert ragged[1..] == ",2,3" && ragged[2..] == "2,3" && ragged[3..] == ",3" && ragged[4..] == "3";
    assert ragged[5..] == [] && good[1..] == ",5" && good[2..] == "5" && good[3..] == [];
    assert |Fields(ragged[4..], false)| == 1;
    assert |Fields(ragged[2..], false)| == 2;
    assert ['5'] + "" == "5" && ['4'] + "" == "4";
    assert Fields(good[2..], false) == ["5"];
  }

  /** A ragged line is dropped and the well-formed one after it kept: the
      preview of the lines `a,b`, `1,2,3`, `4,5`. */
  lemma RaggedLineExample()
    ensures PreviewOf(["a,b", "1,2,3", "4,5"]) == Preview(["a", "b"], [map["a" := "4", "b" := "5"]])
  {
    ExampleHeader();
    var lines := ["a,b", "1,2,3", "4,5"];
    assert lines[1..3] == ["1,2,3", "4,5"];
    ExampleSample();
  }

  /** The text `a,b\n1,2,3\n4,5` has the three lines of the example above. */
  lemma ExampleLines()
    ensures Lines("a,b\n1,2,3\n4,5") == ["a,b", "1,2,3", "4,5"]
  {
    ExampleSplitLines();
    ExampleLineSplit();
    ExampleNonBlank();
  }

  lemma ExampleSplitLines()
    ensures SplitLines("a,b\n1,2,3\n4,5") == SplitOn("a,b\n1,2,3\n4,5", '\n')
  {
    var text := "a,b\n1,2,3\n4,5";
    assert '\r' !in text;
    SplitLinesWithoutCR(text);
  }

  lemma ExampleNonBlank()
    ensures NonBlank(["a,b", "1,2,3", "4,5"]) == ["a,b", "1,2,3", "4,5"]
  {
    TrimOfTrimmed("a,b");
    TrimOfTrimmed("1,2,3");
    TrimOfTrimmed("4,5");
    var lines := ["a,b", "1,2,3", "4,5"];
    assert lines[1..] == ["1,2,3", "4,5"] && lines[1..][1..] == ["4,5"] && lines[1..][1..][1..] == [];
    assert NonBlank(["4,5"]) == ["4,5"];
    assert NonBlank(["1,2,3", "4,5"]) == ["1,2,3", "4,5"];
  }

  lemma ExampleLineSplit()
    ensures SplitOn("a,b\n1,2,3\n4,5", '\n') == ["a,b", "1,2,3", "4,5"]
  {
    var lines := ["a,b", "1,2,3", "4,5"];
    forall k | 0 <= k < |lines| ensures '\n' !in lines[k] {
    }
    assert lines[1..][1..] == ["4,5"];
    assert Join(["4,5"], '\n') == "4,5";
    assert Join(lines[1..], '\n') == "1,2,3\n4,5";
    assert Join(lines, '\n') == "a,b\n1,2,3\n4,5";
    SplitOnJoin(lines, '\n');
  }

  /** The same example end to end, from the uploaded text: through
      `ParseCsvPreview`'s contract this is what the method returns. */
  lemma RaggedTextExample()
    ensures PreviewOf(Lines("a,b\n1,2,3\n4,5")) == Preview(["a", "b"], [map["a" := "4", "b" := "5"]])
  {
    ExampleLines();
    RaggedLineExample();
  }

  lemma ExampleSample()
    ensures SampleRows(["a", "b"], ["1,2,3", "4,5"]) == [map["a" := "4", "b" := "5"]]
  {
    ExampleFields();
    TrimOfTrimmed("4");
    TrimOfTrimmed("5");
    var candidates := ["1,2,3", "4,5"];
    assert candidates[..1] == ["1,2,3"] && candidates[..1][..0] == [];
    assert SampleRows(["a", "b"], candidates[..1]) == [];
    assert RowOf(["a", "b"], ["4", "5"]) == map["a" := "4", "b" := "5"];
  }

  // ---------------------------------------------------------------------
  // validateColumns
  // ---------------------------------------------------------------------

  /** What `validateColumns` returns. */
  datatype Validation = Validation(valid: bool, missing: seq<string>, unexpected: seq<string>)

  /** The most expected columns a file may lack and still be accepted. */
  const MaxMissing: nat := 2

  /** `h.toLowerCase().trim()`: the form in which column names are compared. */
  function Normalize(h: string): (r: string)
    ensures |r| <= |h|
  {
    Trim(ToLower(h))
  }

  /** A normal form is its own normal form: it has no ASCII capital and no
      surrounding whitespace left. */
  lemma NormalizeIdempotent(h: string)
    ensures Normalize(Normalize(h)) == Normalize(h)
  {
    var lower := ToLower(h);
    var t := TrimStart(lower);
    var r := Normalize(h);
    TrimStartShape(lower);
    TrimEndShape(t);
    forall k | 0 <= k < |r| ensures LowerChar(r[k]) == r[k] {
      assert r[k] == t[k] == lower[|lower| - |t| + k];
    }
    assert ToLower(r) == r;
    TrimIdempotent(lower);
  }

  /** `names.map((h) => h.toLowerCase().trim())`. */
  function NormalizeAll(names: seq<string>): (r: seq<string>)
    ensures |r| == |names|
    ensures forall k :: 0 <= k < |r| ==> r[k] == Normalize(names[k])
  {
    seq(|names|, k requires 0 <= k < |names| => Normalize(names[k]))
  }

  /** `names.filter((h) => !reference.includes(h.toLowerCase().trim()))`:
      the names whose normal form is not in `reference`, in their order. */
  function Absent(names: seq<string>, reference: seq<string>): (r: seq<string>)
    ensures |r| <= |names|
    decreases |names|
  {
    if names == [] then []
    else (if Normalize(names[0]) !in reference then [names[0]] else []) + Absent(names[1..], reference)
  }

  /** The filter keeps exactly the names whose normal form is not in `reference`. */
  lemma {:induction false} AbsentMembers(names: seq<string>, reference: seq<string>)
    ensures forall h :: h in Absent(names, reference) <==> h in names && Normalize(h) !in reference
    decreases |names|
  {
    if names != [] {
      AbsentMembers(names[1..], reference);
      assert forall h :: h in names <==> h == names[0] || h in names[1..];
    }
  }

  /** `Math.ceil(n * 0.5)`: the least whole number at least half of `n`. */
  function HalfUp(n: nat): (r: nat)
    ensures 2 * r >= n && 2 * r <= n + 1
  {
    (n + 1) / 2
  }

  /** `validateColumns`, with the table of expected headers passed in. */
  function ValidateColumns(csvHeaders: seq<string>, table: string,
                           expectedHeaders: map<string, seq<string>>): (r: Validation)
    ensures table !in expectedHeaders ==> r == Validation(true, [], [])
    ensures table in expectedHeaders ==>
      var expected := expectedHeaders[table];
      && (forall h :: h in r.missing <==> h in expected && Normalize(h) !in NormalizeAll(csvHeaders))
      && (forall h :: h in r.unexpected <==> h in csvHeaders && Normalize(h) !in NormalizeAll(expected))
      && |r.missing| <= |expected| && |r.unexpected| <= |csvHeaders|
      && (r.valid <==> |r.missing| <= Min(MaxMissing, |expected| / 2))
  {
    if table !in expectedHeaders then Validation(true, [], [])
    else
      var expected := expectedHeaders[table];
      var normalizedExpected := NormalizeAll(expected);
      var normalizedCsv := NormalizeAll(csvHeaders);
      var missing := Absent(expected, normalizedCsv);
      var unexpected := Absent(csvHeaders, normalizedExpected);
      AbsentMembers(expected, normalizedCsv);
      AbsentMembers(csvHeaders, normalizedExpected);
      var matchCount := |expected| - |missing|;
      Validation(matchCount >= HalfUp(|expected|) && |missing| <= MaxMissing, missing, unexpected)
  }

  /** Against an empty reference every name is absent. */
  lemma {:induction false} AbsentNone(names: seq<string>)
    ensures Absent(names, []) == names
    decreases |names|
  {
    if names != [] {
      AbsentNone(names[1..]);
      assert names == [names[0]] + names[1..];
    }
  }

  /** The filter keeps the order of the names it keeps. */
  lemma {:induction false} AbsentAppend(a: seq<string>, b: seq<string>, reference: seq<string>)
    ensures Absent(a + b, reference) == Absent(a, reference) + Absent(b, reference)
    decreases |a|
  {
    if a == [] {
      assert a + b == b;
    } else {
      assert (a + b)[1..] == a[1..] + b;
      AbsentAppend(a[1..], b, reference);
    }
  }

  /** Only which names the reference holds matters, not their order or repeats. */
  lemma {:induction false} AbsentSameReference(names: seq<string>, ref1: seq<string>, ref2: seq<string>)
    requires forall x :: x in ref1 <==> x in ref2
    ensures Absent(names, ref1) == Absent(names, ref2)
    decreases |names|
  {
    if names != [] {
      AbsentSameReference(names[1..], ref1, ref2);
    }
  }

  /** A larger reference leaves no more names absent. */
  lemma {:induction false} AbsentShrinks(names: seq<string>, ref1: seq<string>, ref2: seq<string>)
    requires forall x :: x in ref1 ==> x in ref2
    ensures |Absent(names, ref2)| <= |Absent(names, ref1)|
    decreases |names|
  {
    if names != [] {
      AbsentShrinks(names[1..], ref1, ref2);
    }
  }

  /** Extra columns never turn an accepted file into a rejected one. */
  lemma ExtraColumnsKeepValid(csvHeaders: seq<string>, extra: seq<string>, table: string,
                              expectedHeaders: map<string, seq<string>>)
    requires ValidateColumns(csvHeaders, table, expectedHeaders).valid
    ensures ValidateColumns(csvHeaders + extra, table, expectedHeaders).valid
  {
    if table in expectedHeaders {
      var expected := expectedHeaders[table];
      var n1, n2 := NormalizeAll(csvHeaders), NormalizeAll(csvHeaders + extra);
      forall x | x in n1 ensures x in n2 {
        var k :| 0 <= k < |n1| && n1[k] == x;
        assert (csvHeaders + extra)[k] == csvHeaders[k];
        assert n2[k] == x;
      }
      AbsentShrinks(expected, n1, n2);
    }
  }

  /** Acceptance and the missing list depend on the CSV headers only through
      the set of their normal forms: reordering, repeating or re-casing them
      changes neither. */
  lemma SameNamesSameVerdict(csv1: seq<string>, csv2: seq<string>, table: string,
                             expectedHeaders: map<string, seq<string>>)
    requires forall x :: x in NormalizeAll(csv1) <==> x in NormalizeAll(csv2)
    ensures ValidateColumns(csv1, table, expectedHeaders).valid
         == ValidateColumns(csv2, table, expectedHeaders).valid
    ensures ValidateColumns(csv1, table, expectedHeaders).missing
         == ValidateColumns(csv2, table, expectedHeaders).missing
  {
    if table in expectedHeaders {
      AbsentSameReference(expectedHeaders[table], NormalizeAll(csv1), NormalizeAll(csv2));
    }
  }

  /** An empty list of expected columns accepts any file. */
  lemma EmptyExpectationAccepts(csvHeaders: seq<string>, table: string,
                                expectedHeaders: map<string, seq<string>>)
    requires table in expectedHeaders && expectedHeaders[table] == []
    ensures ValidateColumns(csvHeaders, table, expectedHeaders)
         == Validation(true, [], csvHeaders)
  {
    AbsentNone(csvHeaders);
  }

  /** A name of lower-case ASCII letters is already in normal form. */
  lemma NormalizeLowerWord(s: string)
    requires s != [] && forall k :: 0 <= k < |s| ==> 'a' <= s[k] <= 'z'
    ensures Normalize(s) == s
  {
    assert ToLower(s) == s;
    TrimOfTrimmed(s);
  }

  /** A non-empty name of lower-case ASCII letters. */
  predicate LowerWord(s: string) {
    s != [] && forall k :: 0 <= k < |s| ==> 'a' <= s[k] <= 'z'
  }

  lemma NormalizeAllLower(names: seq<string>)
    requires forall k :: 0 <= k < |names| ==> LowerWord(names[k])
    ensures NormalizeAll(names) == names
  {
    forall k | 0 <= k < |names| ensures NormalizeAll(names)[k] == names[k] {
      NormalizeLowerWord(names[k]);
    }
  }

  /** One step of the filter on a name already in normal form. */
  lemma AbsentStep(x: string, rest: seq<string>, reference: seq<string>)
    requires Normalize(x) == x
    ensures Absent([x] + rest, reference)
         == (if x !in reference then [x] else []) + Absent(rest, reference)
  {
    assert ([x] + rest)[1..] == rest;
  }

  /** Names in normal form that are all missing from `reference` are all kept. */
  lemma {:induction false} AbsentUnlisted(names: seq<string>, reference: seq<string>)
    requires forall k :: 0 <= k < |names| ==> Normalize(names[k]) == names[k] && names[k] !in reference
    ensures Absent(names, reference) == names
    decreases |names|
  {
    if names != [] {
      AbsentUnlisted(names[1..], reference);
      AbsentStep(names[0], names[1..], reference);
      assert [names[0]] + names[1..] == names;
    }
  }

  /** Names in normal form that are all in `reference` are all dropped. */
  lemma {:induction false} AbsentListed(names: seq<string>, reference: seq<string>)
    requires forall k :: 0 <= k < |names| ==> Normalize(names[k]) == names[k] && names[k] in reference
    ensures Absent(names, reference) == []
    decreases |names|
  {
    if names != [] {
      AbsentListed(names[1..], reference);
      AbsentStep(names[0], names[1..], reference);
      assert [names[0]] + names[1..] == names;
    }
  }

  /** Names that are all in `reference` followed by names that are all
      outside it: the filter keeps exactly the second run. */
  lemma AbsentListedThenUnlisted(listed: seq<string>, unlisted: seq<string>, reference: seq<string>)
    requires forall k :: 0 <= k < |listed| ==> LowerWord(listed[k]) && listed[k] in reference
    requires forall k :: 0 <= k < |unlisted| ==> LowerWord(unlisted[k]) && unlisted[k] !in reference
    ensures Absent(listed + unlisted, reference) == unlisted
  {
    forall k | 0 <= k < |listed| ensures Normalize(listed[k]) == listed[k] {
      NormalizeLowerWord(listed[k]);
    }
    forall k | 0 <= k < |unlisted| ensures Normalize(unlisted[k]) == unlisted[k] {
      NormalizeLowerWord(unlisted[k]);
    }
    AbsentAppend(listed, unlisted, reference);
    AbsentListed(listed, reference);
    AbsentUnlisted(unlisted, reference);
  }

  /** On header lists of lower-case ASCII words no name is changed by
      normalising, so `missing` and `unexpected` are plain list differences. */
  lemma ValidateLowerWords(csvHeaders: seq<string>, table: string, expectedHeaders: map<string, seq<string>>)
    requires table in expectedHeaders
    requires forall k :: 0 <= k < |csvHeaders| ==> LowerWord(csvHeaders[k])
    requires forall k :: 0 <= k < |expectedHeaders[table]| ==> LowerWord(expectedHeaders[table][k])
    ensures var expected := expectedHeaders[table];
      var missing := Absent(expected, csvHeaders);
      ValidateColumns(csvHeaders, table, expectedHeaders)
      == Validation(|expected| - |missing| >= HalfUp(|expected|) && |missing| <= MaxMissing,
                    missing, Absent(csvHeaders, expected))
  {
    NormalizeAllLower(expectedHeaders[table]);
    NormalizeAllLower(csvHeaders);
  }

  /** Two of four expected columns missing: accepted; the extra columns are
      listed but do not count against the file. Here `a`…`f` are lower-case
      ASCII words, with `c`, `d` different from `a`, `b`, `e`, `f` and `e`, `f`
      different from `a`, `b`. */
  lemma TwoMissingAccepted(a: string, b: string, c: string, d: string, e: string, f: string,
                           table: string, expectedHeaders: map<string, seq<string>>)
    requires LowerWord(a) && LowerWord(b) && LowerWord(c) && LowerWord(d) && LowerWord(e) && LowerWord(f)
    requires c != a && c != b && d != a && d != b && e != a && e != b && f != a && f != b
    requires c != e && c != f && d != e && d != f
    requires table in expectedHeaders && expectedHeaders[table] == [a, b, c, d]
    ensures ValidateColumns([a, b, e, f], table, expectedHeaders) == Validation(true, [c, d], [e, f])
  {
    ValidateLowerWords([a, b, e, f], table, expectedHeaders);
    TwoMissingLists(a, b, c, d, e, f);
  }

  lemma TwoMissingLists(a: string, b: string, c: string, d: string, e: string, f: string)
    requires LowerWord(a) && LowerWord(b) && LowerWord(c) && LowerWord(d) && LowerWord(e) && LowerWord(f)
    requires c != a && c != b && d != a && d != b && e != a && e != b && f != a && f != b
    requires c != e && c != f && d != e && d != f
    ensures Absent([a, b, c, d], [a, b, e, f]) == [c, d]
    ensures Absent([a, b, e, f], [a, b, c, d]) == [e, f]
  {
    KeepLastTwo(a, b, c, d, [a, b, e, f]);
    KeepLastTwo(a, b, e, f, [a, b, c, d]);
  }

  lemma KeepLastTwo(a: string, b: string, c: string, d: string, reference: seq<string>)
    requires LowerWord(a) && LowerWord(b) && LowerWord(c) && LowerWord(d)
    requires a in reference && b in reference && c !in reference && d !in reference
    ensures Absent([a, b, c, d], reference) == [c, d]
  {
    assert [a, b, c, d] == [a, b] + [c, d];
    AbsentListedThenUnlisted([a, b], [c, d], reference);
  }

  /** Three of six expected columns missing: rejected by the cap of two
      missing columns alone, since the three that match reach half of six.
      Here `a`…`f` are lower-case ASCII words, with `d`, `e`, `f` different
      from `a`, `b`, `c`. */
  lemma ThreeMissingRejected(a: string, b: string, c: string, d: string, e: string, f: string,
                             table: string, expectedHeaders: map<string, seq<string>>)
    requires LowerWord(a) && LowerWord(b) && LowerWord(c) && LowerWord(d) && LowerWord(e) && LowerWord(f)
    requires d != a && d != b && d != c && e != a && e != b && e != c && f != a && f != b && f != c
    requires table in expectedHeaders && expectedHeaders[table] == [a, b, c, d, e, f]
    ensures ValidateColumns([a, b, c], table, expectedHeaders) == Validation(false, [d, e, f], [])
  {
    ValidateLowerWords([a, b, c], table, expectedHeaders);
    ThreeMissingLists(a, b, c, d, e, f);
    assert 6 - 3 >= HalfUp(6);
  }

  lemma ThreeMissingLists(a: string, b: string, c: string, d: string, e: string, f: string)
    requires LowerWord(a) && LowerWord(b) && LowerWord(c) && LowerWord(d) && LowerWord(e) && LowerWord(f)
    requires d != a && d != b && d != c && e != a && e != b && e != c && f != a && f != b && f != c
    ensures Absent([a, b, c, d, e, f], [a, b, c]) == [d, e, f]
    ensures Absent([a, b, c], [a, b, c, d, e, f]) == []
  {
    var expected, csv := [a, b, c, d, e, f], [a, b, c];
    assert expected == csv + [d, e, f] && csv == csv + [];
    AbsentListedThenUnlisted(csv, [d, e, f], csv);
    AbsentListedThenUnlisted(csv, [], expected);
  }

  /** Case and surrounding spaces do not matter when names are compared. */
  lemma CaseAndSpaceExample()
    ensures ValidateColumns([" name "], "t", map["t" := ["Name"]]) == Validation(true, [], [])
  {
    NormalizeLowerWord("name");
    assert ToLower("Name") == "name";
    assert ToLower(" name ") == " name ";
    var padded := " name ";
    assert TrimStart(padded[1..]) == padded[1..];
    assert padded[1..] == "name ";
    assert TrimStart(padded) == "name ";
    assert "name "[..4] == "name";
    assert TrimEnd("name ") == "name";
    assert Normalize(" name ") == "name";
    assert Normalize("Name") == "name";
  }
}
