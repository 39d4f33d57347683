/** The submission log of the Node server (server.js): the quoted CSV row
    that `appendCsv` adds, the hand-written CSV line parser of
    `writeXlsFromCsv`, its cell escaping, and the export document it
    regenerates from the whole log. */
module ServerLog {

  import opened Wrappers
  import opened Text
  import opened Submission
  import XlsTable

  // ---------------------------------------------------------------------
  // appendCsv: header and row encoding

  /** A cell in double quotes, inner quotes doubled. */
  function QuoteCell(value: string): string
  {
    "\"" + ReplaceChar(value, '"', "\"\"") + "\""
  }

  function QuoteAll(values: seq<string>): (r: seq<string>)
    ensures |r| == |values|
    ensures forall k :: 0 <= k < |values| ==> r[k] == QuoteCell(values[k])
  {
    if values == [] then [] else [QuoteCell(values[0])] + QuoteAll(values[1..])
  }

  /** The header line (the keys, unquoted), without its newline. */
  function HeaderLine(keys: seq<string>): string
  {
    Join(",", keys)
  }

  /** A data line (every value quoted), without its newline. */
  function RowLine(values: seq<string>): string
  {
    Join(",", QuoteAll(values))
  }

  /** The log after one `appendCsv` of a record with these keys and
      values: a log that does not exist yet gets the header and the row,
      an existing one (even an empty one) only the row. */
  function AppendedCsv(csv: Option<string>, keys: seq<string>, values: seq<string>): (r: string)
    ensures csv.None? ==> r == HeaderLine(keys) + "\n" + RowLine(values) + "\n"
    ensures csv.Some? ==> r == csv.value + RowLine(values) + "\n"
  {
    match csv
    case None => HeaderLine(keys) + "\n" + RowLine(values) + "\n"
    case Some(text) => text + RowLine(values) + "\n"
  }

  /** The log after a series of records with the same keys. */
  function CsvAfter(csv: Option<string>, keys: seq<string>, records: seq<seq<string>>): (r: Option<string>)
    ensures records != [] ==> r.Some?
    ensures records == [] ==> r == csv
  {
    if records == [] then csv
    else Some(AppendedCsv(CsvAfter(csv, keys, records[..|records| - 1]), keys, records[|records| - 1]))
  }

  // ---------------------------------------------------------------------
  // writeXlsFromCsv: the CSV line parser

  /** The parser's loop as a function of the remaining input and of its
      state: the current cell, whether it is inside quotes, and the cells
      already pushed. */
  function ParseCells(s: string, current: string, inQuotes: bool, cells: seq<string>): (r: seq<string>)
    decreases |s|
  {
    if s == [] then cells + [current]
    else if s[0] == '"' then
      if inQuotes && |s| > 1 && s[1] == '"' then ParseCells(s[2..], current + "\"", inQuotes, cells)
      else ParseCells(s[1..], current, !inQuotes, cells)
    else if s[0] == ',' && !inQuotes then ParseCells(s[1..], "", inQuotes, cells + [current])
    else ParseCells(s[1..], current + [s[0]], inQuotes, cells)
  }

  /** The cells of one CSV line. */
  function CsvCells(line: string): seq<string>
  {
    ParseCells(line, "", false, [])
  }

  /** The character loop of the line parser. */
  method ParseCsvLine(line: string) returns (cells: seq<string>)
    ensures cells == CsvCells(line)
  {
    cells := [];
    var current := "";
    var inQuotes := false;
    var i := 0;
    while i < |line|
      invariant 0 <= i <= |line|
      invariant ParseCells(line[i..], current, inQuotes, cells) == CsvCells(line)
    {
      var ch := line[i];
      if ch == '"' {
        if inQuotes && i + 1 < |line| && line[i + 1] == '"' {
          current := current + "\"";
          assert line[i..][2..] == line[i + 2..];
          i := i + 1;
        } else {
          inQuotes := !inQuotes;
          assert line[i..][1..] == line[i + 1..];
        }
      } else if ch == ',' && !inQuotes {
        cells := cells + [current];
        current := "";
        assert line[i..][1..] == line[i + 1..];
      } else {
        current := current + [ch];
        assert line[i..][1..] == line[i + 1..];
      }
      i := i + 1;
    }
    assert line[i..] == [];
    cells := cells + [current];
  }

  /** Inside quotes, an escaped cell followed by the closing quote is read
      back as the cell, provided the closing quote is not followed by
      another quote. */
  lemma {:induction false} ParseQuotedCell(c: string, rest: string, current: string, cells: seq<string>)
    requires rest == [] || rest[0] != '"'
    ensures ParseCells(ReplaceChar(c, '"', "\"\"") + "\"" + rest, current, true, cells)
         == ParseCells(rest, current + c, false, cells)
    decreases |c|
  {
    var e := ReplaceChar(c, '"', "\"\"");
    var s := e + "\"" + rest;
    if c == [] {
      assert s == "\"" + rest;
      assert s[1..] == rest;
      assert current + c == current;
    } else {
      var e' := ReplaceChar(c[1..], '"', "\"\"");
      if c[0] == '"' {
        assert s == "\"\"" + (e' + "\"" + rest);
        assert s[2..] == e' + "\"" + rest;
        ParseQuotedCell(c[1..], rest, current + "\"", cells);
        assert current + "\"" + c[1..] == current + c;
      } else {
        assert s == [c[0]] + (e' + "\"" + rest);
        assert s[1..] == e' + "\"" + rest;
        ParseQuotedCell(c[1..], rest, current + [c[0]], cells);
        assert current + [c[0]] + c[1..] == current + c;
      }
    }
  }

  /** Outside quotes, a quoted cell followed by a separator or the end of
      the line is read back as the cell. */
  lemma ParseQuoted(c: string, rest: string, cells: seq<string>)
    requires rest == [] || rest[0] != '"'
    ensures ParseCells(QuoteCell(c) + rest, "", false, cells) == ParseCells(rest, c, false, cells)
  {
    var e := ReplaceChar(c, '"', "\"\"");
    var s := QuoteCell(c) + rest;
    assert s == "\"" + (e + "\"" + rest);
    assert s[1..] == e + "\"" + rest;
    ParseQuotedCell(c, rest, "", cells);
    assert "" + c == c;
  }

  lemma RowLineCons(values: seq<string>)
    requires |values| > 1
    ensures RowLine(values) == QuoteCell(values[0]) + ("," + RowLine(values[1..]))
  {
    assert QuoteAll(values) == [QuoteCell(values[0])] + QuoteAll(values[1..]);
    JoinCons(",", QuoteCell(values[0]), QuoteAll(values[1..]));
  }

  /** The first quoted cell and its separator are read, and the parser
      goes on with the rest of the line. */
  lemma ParseQuotedRowStep(values: seq<string>, cells: seq<string>)
    requires |values| > 1
    ensures ParseCells(RowLine(values), "", false, cells)
         == ParseCells(RowLine(values[1..]), "", false, cells + [values[0]])
  {
    var tail := RowLine(values[1..]);
    RowLineCons(values);
    ParseQuoted(values[0], "," + tail, cells);
    assert ("," + tail)[0] == ',' && ("," + tail)[1..] == tail;
  }

  lemma ParseQuotedSingle(values: seq<string>, cells: seq<string>)
    requires |values| == 1
    ensures ParseCells(RowLine(values), "", false, cells) == cells + values
  {
    assert RowLine(values) == QuoteCell(values[0]) + [];
    ParseQuoted(values[0], [], cells);
  }

  /** Parsing a data line gives back its cells after the ones already read. */
  lemma {:induction false} ParseQuotedRow(values: seq<string>, cells: seq<string>)
    requires values != []
    ensures ParseCells(RowLine(values), "", false, cells) == cells + values
    decreases |values|
  {
    if |values| == 1 {
      ParseQuotedSingle(values, cells);
    } else {
      ParseQuotedRowStep(values, cells);
      ParseQuotedRow(values[1..], cells + [values[0]]);
      assert cells + [values[0]] + values[1..] == cells + values;
    }
  }

  /** A data line parses back to exactly the values it was built from. */
  lemma RowRoundTrip(values: seq<string>)
    requires values != []
    ensures CsvCells(RowLine(values)) == values
  {
    ParseQuotedRow(values, []);
    assert [] + values == values;
  }

  /** Outside quotes, text without quotes and commas joins the current cell. */
  lemma {:induction false} ParsePlainText(c: string, rest: string, current: string, cells: seq<string>)
    requires '"' !in c && ',' !in c
    ensures ParseCells(c + rest, current, false, cells) == ParseCells(rest, current + c, false, cells)
    decreases |c|
  {
    if c == [] {
      assert c + rest == rest;
      assert current + c == current;
    } else {
      assert (c + rest)[0] == c[0] && (c + rest)[1..] == c[1..] + rest;
      assert c[0] in c;
      ParsePlainText(c[1..], rest, current + [c[0]], cells);
      assert current + [c[0]] + c[1..] == current + c;
    }
  }

  lemma {:induction false} ParsePlainRow(keys: seq<string>, cells: seq<string>)
    requires keys != []
    requires forall k :: 0 <= k < |keys| ==> '"' !in keys[k] && ',' !in keys[k]
    ensures ParseCells(Join(",", keys), "", false, cells) == cells + keys
    decreases |keys|
  {
    if |keys| == 1 {
      ParsePlainText(keys[0], [], "", cells);
      assert keys[0] + [] == keys[0];
      assert "" + keys[0] == keys[0];
    } else {
      JoinCons(",", keys[0], keys[1..]);
      assert [keys[0]] + keys[1..] == keys;
      var tail := Join(",", keys[1..]);
      assert Join(",", keys) == keys[0] + ("," + tail);
      ParsePlainText(keys[0], "," + tail, "", cells);
      assert "" + keys[0] == keys[0];
      assert ("," + tail)[0] == ',' && ("," + tail)[1..] == tail;
      ParsePlainRow(keys[1..], cells + [keys[0]]);
      assert cells + [keys[0]] + keys[1..] == cells + keys;
    }
  }

  /** Keys that can be written unquoted on one line. */
  predicate PlainKeys(keys: seq<string>)
  {
    keys != [] && keys[0] != [] && forall k :: 0 <= k < |keys| ==> '"' !in keys[k] && ',' !in keys[k] && '\n' !in keys[k] && '\r' !in keys[k]
  }

  /** The unquoted header line parses back to the keys. */
  lemma HeaderRoundTrip(keys: seq<string>)
    requires PlainKeys(keys)
    ensures CsvCells(HeaderLine(keys)) == keys
  {
    ParsePlainRow(keys, []);
    assert [] + keys == keys;
  }

  // ---------------------------------------------------------------------
  // writeXlsFromCsv: lines, escaping, export

  /** One line with its trailing carriage return removed. */
  function StripCr(line: string): (r: string)
    ensures '\r' !in line ==> r == line
  {
    if line != [] && line[|line| - 1] == '\r' then line[..|line| - 1] else line
  }

  /** `content.split(/\r?\n/)`: the pieces between line feeds, each but the
      last without the carriage return that preceded its line feed. */
  function SplitLines(content: string): (r: seq<string>)
    ensures |r| == |Split(content, '\n')|
  {
    var pieces := Split(content, '\n');
    seq(|pieces|, k requires 0 <= k < |pieces| => if k < |pieces| - 1 then StripCr(pieces[k]) else pieces[k])
  }

  /** The non-empty lines of the log. */
  function LogLines(content: string): seq<string>
  {
    NonEmpty(SplitLines(content))
  }

  /** Each line through the line parser. */
  function ParsedLines(lines: seq<string>): (rows: seq<seq<string>>)
    ensures |rows| == |lines|
    ensures forall i :: 0 <= i < |rows| ==> rows[i] == CsvCells(lines[i])
  {
    seq(|lines|, i requires 0 <= i < |lines| => CsvCells(lines[i]))
  }

  /** The rows of the export: each log line through the line parser. */
  function ExportRows(content: string): seq<seq<string>>
  {
    ParsedLines(LogLines(content))
  }

  /** A line-feed-terminated sequence of lines without line breaks splits
      back into those lines. */
  lemma LogLinesOfJoin(lines: seq<string>)
    requires lines != []
    requires forall k :: 0 <= k < |lines| ==> lines[k] != "" && '\n' !in lines[k] && '\r' !in lines[k]
    ensures LogLines(Join("\n", lines) + "\n") == lines
  {
    SplitLinesOfJoin(lines);
    NonEmptyAppend(lines, [""]);
    assert NonEmpty([""]) == [];
  }

  lemma SplitOfJoin(lines: seq<string>)
    requires lines != []
    requires forall k :: 0 <= k < |lines| ==> '\n' !in lines[k]
    ensures Split(Join("\n", lines) + "\n", '\n') == lines + [""]
  {
    var j := Join("\n", lines);
    JoinSnoc("\n", lines, "");
    assert j + "\n" + "" == j + "\n";
    NoLineFeedAfterSnoc(lines);
    SplitJoin(lines + [""], '\n');
  }

  lemma NoLineFeedAfterSnoc(lines: seq<string>)
    requires forall k :: 0 <= k < |lines| ==> '\n' !in lines[k]
    ensures forall k :: 0 <= k < |lines + [""]| ==> '\n' !in (lines + [""])[k]
  {
  }

  lemma SplitLinesOfJoin(lines: seq<string>)
    requires lines != []
    requires forall k :: 0 <= k < |lines| ==> '\n' !in lines[k] && '\r' !in lines[k]
    ensures SplitLines(Join("\n", lines) + "\n") == lines + [""]
  {
    SplitOfJoin(lines);
  }

  /** The character entity, or the character itself. */
  function Entity(c: char): string
  {
    if c == '&' then "&amp;"
    else if c == '<' then "&lt;"
    else if c == '>' then "&gt;"
    else if c == '"' then "&quot;"
    else [c]
  }

  /** Escaping as a single left-to-right pass. */
  function EscapeEach(s: string): string
  {
    if s == [] then [] else Entity(s[0]) + EscapeEach(s[1..])
  }

  /** The export's cell escaping: four replacements in a row, `&` first. */
  function EscapeHtml(s: string): string
  {
    ReplaceChar(ReplaceChar(ReplaceChar(ReplaceChar(s, '&', "&amp;"), '<', "&lt;"), '>', "&gt;"), '"', "&quot;")
  }

  lemma EscapeHtmlAppend(a: string, b: string)
    ensures EscapeHtml(a + b) == EscapeHtml(a) + EscapeHtml(b)
  {
    var a1, b1 := ReplaceChar(a, '&', "&amp;"), ReplaceChar(b, '&', "&amp;");
    ReplaceCharAppend(a, b, '&', "&amp;");
    var a2, b2 := ReplaceChar(a1, '<', "&lt;"), ReplaceChar(b1, '<', "&lt;");
    ReplaceCharAppend(a1, b1, '<', "&lt;");
    var a3, b3 := ReplaceChar(a2, '>', "&gt;"), ReplaceChar(b2, '>', "&gt;");
    ReplaceCharAppend(a2, b2, '>', "&gt;");
    ReplaceCharAppend(a3, b3, '"', "&quot;");
  }

  lemma ReplaceOne(c: char, x: char, sub: string)
    ensures ReplaceChar([c], x, sub) == if c == x then sub else [c]
  {
    assert [c][1..] == [];
  }

  /** The four passes on a string holding none of the four characters. */
  lemma EscapeUntouched(s: string)
    requires '&' !in s && '<' !in s && '>' !in s && '"' !in s
    ensures EscapeHtml(s) == s
  {
  }

  lemma EscapeOneChar(c: char)
    ensures EscapeHtml([c]) == Entity(c)
  {
    ReplaceOne(c, '&', "&amp;");
    if c == '&' {
      EscapeAmp();
    } else {
      ReplaceOne(c, '<', "&lt;");
      if c == '<' {
        EscapeToEntity("&lt;");
      } else {
        ReplaceOne(c, '>', "&gt;");
        if c == '>' {
          EscapeToEntity("&gt;");
        } else {
          ReplaceOne(c, '"', "&quot;");
        }
      }
    }
  }

  lemma EscapeAmp()
    ensures ReplaceChar(ReplaceChar(ReplaceChar("&amp;", '<', "&lt;"), '>', "&gt;"), '"', "&quot;") == "&amp;"
  {
    assert '<' !in "&amp;" && '>' !in "&amp;" && '"' !in "&amp;";
  }

  lemma EscapeToEntity(e: string)
    requires e == "&lt;" || e == "&gt;"
    ensures ReplaceChar(ReplaceChar(e, '>', "&gt;"), '"', "&quot;") == e
  {
    assert '>' !in e && '"' !in e;
  }

  /** Because `&` is replaced first, the four passes never re-escape an
      entity: they equal the single pass. */
  lemma {:induction false} EscapeInOnePass(s: string)
    ensures EscapeHtml(s) == EscapeEach(s)
    decreases |s|
  {
    if s != [] {
      assert s == [s[0]] + s[1..];
      EscapeHtmlAppend([s[0]], s[1..]);
      EscapeInOnePass(s[1..]);
      EscapeOneChar(s[0]);
    }
  }

  /** Reading the four entities back. */
  function UnescapeHtml(s: string): string
    decreases |s|
  {
    if s == [] then []
    else if |s| >= 5 && s[..5] == "&amp;" then "&" + UnescapeHtml(s[5..])
    else if |s| >= 4 && s[..4] == "&lt;" then "<" + UnescapeHtml(s[4..])
    else if |s| >= 4 && s[..4] == "&gt;" then ">" + UnescapeHtml(s[4..])
    else if |s| >= 6 && s[..6] == "&quot;" then "\"" + UnescapeHtml(s[6..])
    else [s[0]] + UnescapeHtml(s[1..])
  }

  lemma UnescapeEntity(c: char, rest: string)
    ensures UnescapeHtml(Entity(c) + rest) == [c] + UnescapeHtml(rest)
  {
    if c == '&' {
      UnescapeAmp(rest);
    } else if c == '<' {
      UnescapeLt(rest);
    } else if c == '>' {
      UnescapeGt(rest);
    } else if c == '"' {
      UnescapeQuot(rest);
    } else {
      UnescapePlain(c, rest);
    }
  }

  lemma UnescapeAmp(rest: string)
    ensures UnescapeHtml("&amp;" + rest) == "&" + UnescapeHtml(rest)
  {
    var e := "&amp;" + rest;
    assert e[..5] == "&amp;" && e[5..] == rest;
  }

  lemma UnescapeLt(rest: string)
    ensures UnescapeHtml("&lt;" + rest) == "<" + UnescapeHtml(rest)
  {
    var e := "&lt;" + rest;
    assert e[1] == 'l';
    assert e[..4] == "&lt;" && e[4..] == rest;
  }

  lemma UnescapeGt(rest: string)
    ensures UnescapeHtml("&gt;" + rest) == ">" + UnescapeHtml(rest)
  {
    var e := "&gt;" + rest;
    assert e[1] == 'g';
    assert e[..4] == "&gt;" && e[4..] == rest;
  }

  lemma UnescapeQuot(rest: string)
    ensures UnescapeHtml("&quot;" + rest) == "\"" + UnescapeHtml(rest)
  {
    var e := "&quot;" + rest;
    assert e[1] == 'q';
    assert e[..6] == "&quot;" && e[6..] == rest;
  }

  lemma UnescapePlain(c: char, rest: string)
    requires c != '&'
    ensures UnescapeHtml([c] + rest) == [c] + UnescapeHtml(rest)
  {
    var e := [c] + rest;
    assert e[0] == c && e[1..] == rest;
  }

  /** Escaped text holds no markup and reads back as the original text. */
  lemma {:induction false} EscapeEachRoundTrip(s: string)
    ensures '<' !in EscapeEach(s)
    ensures UnescapeHtml(EscapeEach(s)) == s
    decreases |s|
  {
    if s != [] {
      EscapeEachRoundTrip(s[1..]);
      UnescapeEntity(s[0], EscapeEach(s[1..]));
      assert '<' !in Entity(s[0]);
    }
  }

  /** No markup character survives escaping. */
  lemma {:induction false} EscapeEachAvoids(s: string, d: char)
    requires d == '<' || d == '>' || d == '"'
    ensures d !in EscapeEach(s)
    decreases |s|
  {
    if s != [] {
      EscapeEachAvoids(s[1..], d);
      assert d !in Entity(s[0]);
    }
  }

  lemma EscapeRoundTrip(s: string)
    ensures '<' !in EscapeHtml(s) && '>' !in EscapeHtml(s) && '"' !in EscapeHtml(s)
    ensures UnescapeHtml(EscapeHtml(s)) == s
  {
    EscapeInOnePass(s);
    EscapeEachRoundTrip(s);
    EscapeEachAvoids(s, '>');
    EscapeEachAvoids(s, '"');
  }

  /** The escaping and its inverse as values, for the table renderer. */
  const Escape: string -> string := s => EscapeHtml(s)
  const Unescape: string -> string := s => UnescapeHtml(s)

  /** Every cell survives the export. */
  lemma CellsRecoverable(rows: seq<seq<string>>)
    ensures forall i, j :: 0 <= i < |rows| && 0 <= j < |rows[i]| ==> XlsTable.Recoverable(rows[i][j], Escape, Unescape)
  {
    forall i, j | 0 <= i < |rows| && 0 <= j < |rows[i]| ensures XlsTable.Recoverable(rows[i][j], Escape, Unescape) {
      EscapeRoundTrip(rows[i][j]);
    }
  }

  /** The export document that `writeXlsFromCsv` derives from the log. */
  function ExportOf(content: string): string
  {
    XlsTable.TableHtml(ExportRows(content), Escape)
  }

  /** Values that stay on one line. */
  predicate SingleLine(values: seq<string>)
  {
    values != [] && forall k :: 0 <= k < |values| ==> '\n' !in values[k] && '\r' !in values[k]
  }

  /** The data lines of a series of records. */
  function RowLines(records: seq<seq<string>>): (r: seq<string>)
    ensures |r| == |records|
    ensures forall i :: 0 <= i < |r| ==> r[i] == RowLine(records[i])
  {
    if records == [] then []
    else RowLines(records[..|records| - 1]) + [RowLine(records[|records| - 1])]
  }

  /** A fresh log after N records is the header line and N data lines. */
  lemma {:induction false} FreshLogLines(keys: seq<string>, records: seq<seq<string>>)
    requires records != []
    ensures CsvAfter(None, keys, records) == Some(Join("\n", [HeaderLine(keys)] + RowLines(records)) + "\n")
    decreases |records|
  {
    var n := |records|;
    var init, last := records[..n - 1], records[n - 1];
    var row := RowLine(last);
    var lines := [HeaderLine(keys)] + RowLines(init);
    assert lines + [row] == [HeaderLine(keys)] + RowLines(records) by {
      assert RowLines(records) == RowLines(init) + [row];
    }
    var prev := CsvAfter(None, keys, init);
    assert prev == None || prev == Some(Join("\n", lines) + "\n") by {
      if n > 1 {
        FreshLogLines(keys, init);
      }
    }
    calc {
      CsvAfter(None, keys, records);
      Some(AppendedCsv(prev, keys, last));
      { if n == 1 { assert init == [] && RowLines(init) == [] && lines == [HeaderLine(keys)]; } }
      Some(Join("\n", lines) + "\n" + row + "\n");
      { LogStep(lines, row); }
      Some(Join("\n", lines + [row]) + "\n");
    }
  }

  /** Appending a line to a line-feed-terminated text. */
  lemma LogStep(lines: seq<string>, row: string)
    requires lines != []
    ensures Join("\n", lines) + "\n" + row + "\n" == Join("\n", lines + [row]) + "\n"
  {
    JoinSnoc("\n", lines, row);
  }

  /** A data line of single-line values is one non-empty line. */
  lemma RowLineIsOneLine(values: seq<string>)
    requires SingleLine(values)
    ensures RowLine(values) != [] && '\n' !in RowLine(values) && '\r' !in RowLine(values)
  {
    forall k | 0 <= k < |values| ensures '\n' !in QuoteAll(values)[k] && '\r' !in QuoteAll(values)[k] {
      ReplaceCharAvoids(values[k], '"', "\"\"", '\n');
      ReplaceCharAvoids(values[k], '"', "\"\"", '\r');
    }
    JoinAvoids(",", QuoteAll(values), '\n');
    JoinAvoids(",", QuoteAll(values), '\r');
    if |values| == 1 {
      assert RowLine(values) == QuoteCell(values[0]);
    } else {
      RowLineCons(values);
    }
  }

  /** The header line of plain keys is one non-empty line. */
  lemma HeaderIsOneLine(keys: seq<string>)
    requires PlainKeys(keys)
    ensures HeaderLine(keys) != [] && '\n' !in HeaderLine(keys) && '\r' !in HeaderLine(keys)
  {
    JoinAvoids(",", keys, '\n');
    JoinAvoids(",", keys, '\r');
    if |keys| > 1 {
      JoinCons(",", keys[0], keys[1..]);
      assert [keys[0]] + keys[1..] == keys;
    }
  }

  /** A fresh log after N single-line records reads back as N+1 lines: the
      header, then one data line per record. */
  lemma FreshLogLineCount(keys: seq<string>, records: seq<seq<string>>)
    requires PlainKeys(keys) && records != []
    requires forall i :: 0 <= i < |records| ==> SingleLine(records[i])
    ensures LogLines(CsvAfter(None, keys, records).value) == [HeaderLine(keys)] + RowLines(records)
  {
    FreshLogLines(keys, records);
    var rows := RowLines(records);
    var lines := [HeaderLine(keys)] + rows;
    HeaderIsOneLine(keys);
    forall i | 0 <= i < |records| ensures rows[i] != [] && '\n' !in rows[i] && '\r' !in rows[i] {
      RowLineIsOneLine(records[i]);
    }
    assert forall k :: 1 <= k < |lines| ==> lines[k] == rows[k - 1];
    LogLinesOfJoin(lines);
  }

  lemma ParsedLinesCons(line: string, lines: seq<string>)
    ensures ParsedLines([line] + lines) == [CsvCells(line)] + ParsedLines(lines)
  {
  }

  /** The data lines parse back to the records. */
  lemma ParsedRows(records: seq<seq<string>>)
    requires forall i :: 0 <= i < |records| ==> records[i] != []
    ensures ParsedLines(RowLines(records)) == records
  {
    var rows := ParsedLines(RowLines(records));
    forall i | 0 <= i < |records| ensures rows[i] == records[i] {
      RowRoundTrip(records[i]);
    }
  }

  /** The header line and the data lines parse back to the keys and the
      records. */
  lemma ParsedLog(keys: seq<string>, records: seq<seq<string>>)
    requires PlainKeys(keys)
    requires forall i :: 0 <= i < |records| ==> records[i] != []
    ensures ParsedLines([HeaderLine(keys)] + RowLines(records)) == [keys] + records
  {
    ParsedLinesCons(HeaderLine(keys), RowLines(records));
    HeaderRoundTrip(keys);
    ParsedRows(records);
  }

  /** After N single-line records into a fresh log, the export has N+1
      rows: the keys, then each record's values. */
  lemma FreshLogExportRows(keys: seq<string>, records: seq<seq<string>>)
    requires PlainKeys(keys) && records != []
    requires forall i :: 0 <= i < |records| ==> SingleLine(records[i])
    ensures ExportRows(CsvAfter(None, keys, records).value) == [keys] + records
  {
    FreshLogLineCount(keys, records);
    ParsedLog(keys, records);
  }

  /** The stored values of a series of submissions. */
  function ValuesOf(submissions: seq<Fields>): (r: seq<seq<string>>)
    ensures |r| == |submissions|
    ensures forall i :: 0 <= i < |r| ==> r[i] == Values(submissions[i])
  {
    seq(|submissions|, i requires 0 <= i < |submissions| => Values(submissions[i]))
  }

  /** After N submissions without line breaks into a fresh log, the export
      decodes to N+1 rows: the field keys in header cells, then each
      submission's values in data cells, every value recovered exactly. */
  lemma FreshLogExportRoundTrip(submissions: seq<Fields>)
    requires submissions != []
    requires forall i :: 0 <= i < |submissions| ==> SingleLine(Values(submissions[i]))
    ensures XlsTable.DecodeTable(ExportOf(CsvAfter(None, FieldKeys, ValuesOf(submissions)).value), Unescape)
         == Some(XlsTable.TaggedRows([FieldKeys] + ValuesOf(submissions)))
  {
    KeysHaveNoLineBreaks();
    KeysHaveNoQuotesOrCommas();
    FreshLogExportRows(FieldKeys, ValuesOf(submissions));
    var rows := [FieldKeys] + ValuesOf(submissions);
    CellsRecoverable(rows);
    XlsTable.TableRoundTrip(rows, Escape, Unescape);
  }

  /** The body of `writeXlsFromCsv`: parses the log line by line and
      renders the rows. */
  method BuildExport(content: string) returns (html: string)
    ensures html == ExportOf(content)
  {
    var lines := LogLines(content);
    var rows: seq<seq<string>> := [];
    var i := 0;
    while i < |lines|
      invariant 0 <= i <= |lines|
      invariant rows == ParsedLines(lines)[..i]
    {
      var cells := ParseCsvLine(lines[i]);
      rows := rows + [cells];
      i := i + 1;
    }
    assert rows == ExportRows(content);
    html := XlsTable.RenderTable(rows, Escape);
  }

  // ---------------------------------------------------------------------
  // The storage directory

  /** `storage/submissions.csv` and `storage/submissions.xls`; `None` for
      a file that does not exist. */
  class Storage {
    var csv: Option<string>
    var xls: Option<string>

    constructor (csv: Option<string>, xls: Option<string>)
      ensures this.csv == csv && this.xls == xls
    {
      this.csv := csv;
      this.xls := xls;
    }

    /** `appendCsv`: the header is written only when the file does not
        exist yet. */
    method AppendCsv(fields: Fields)
      modifies this
      ensures csv == Some(AppendedCsv(old(csv), FieldKeys, Values(fields)))
      ensures xls == old(xls)
    {
      var row := RowLine(Values(fields));
      if csv.None? {
        csv := Some(HeaderLine(FieldKeys) + "\n" + row + "\n");
      } else {
        csv := Some(csv.value + row + "\n");
      }
    }

    /** `writeXlsFromCsv`, called right after `appendCsv`: re-reads the
        whole log and overwrites the export. */
    method WriteXlsFromCsv()
      requires csv.Some?
      modifies this
      ensures csv == old(csv)
      ensures xls == Some(ExportOf(csv.value))
    {
      var html := BuildExport(csv.value);
      xls := Some(html);
    }
  }
}
