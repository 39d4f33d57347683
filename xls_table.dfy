/** The "XLS" export shared by both handlers: an HTML table regenerated
    from the records of the submission log, with `th` cells in the first
    row and `td` cells in every later row. The handlers differ only in how
    they escape a cell, so the escaping is a parameter here. A decoder for
    the generated markup is the partner: decoding the table gives back
    every record, cell by cell, tagged with its row's cell tag. */
module XlsTable {

  import opened Wrappers
  import opened Text

  const DocumentHead: string := "<html><head><meta charset=\"UTF-8\"></head><body><table border=\"1\">"
  const DocumentTail: string := "</table></body></html>"

  /** The cell tag of the row with the given position. */
  function CellTag(rowIndex: nat): (t: string)
    ensures |t| == 2 && t[0] == 't'
    ensures rowIndex == 0 <==> t == "th"
  {
    if rowIndex == 0 then "th" else "td"
  }

  function CellHtml(tag: string, text: string): string
  {
    "<" + tag + ">" + text + "</" + tag + ">"
  }

  /** The cells of one row, in order. */
  function CellsHtml(tag: string, cells: seq<string>, escape: string -> string): string
  {
    if cells == [] then []
    else CellsHtml(tag, cells[..|cells| - 1], escape) + CellHtml(tag, escape(cells[|cells| - 1]))
  }

  function RowHtml(rowIndex: nat, cells: seq<string>, escape: string -> string): string
  {
    "<tr>" + CellsHtml(CellTag(rowIndex), cells, escape) + "</tr>"
  }

  /** The rows of the table; each row is tagged by its position. */
  function RowsHtml(rows: seq<seq<string>>, escape: string -> string): string
  {
    if rows == [] then []
    else RowsHtml(rows[..|rows| - 1], escape) + RowHtml(|rows| - 1, rows[|rows| - 1], escape)
  }

  /** The whole generated document. */
  function TableHtml(rows: seq<seq<string>>, escape: string -> string): string
  {
    DocumentHead + RowsHtml(rows, escape) + DocumentTail
  }

  /** The export loop: one `<tr>` per record. */
  method RenderTable(rows: seq<seq<string>>, escape: string -> string) returns (html: string)
    ensures html == TableHtml(rows, escape)
  {
    html := DocumentHead;
    var i := 0;
    while i < |rows|
      invariant 0 <= i <= |rows|
      invariant html == DocumentHead + RowsHtml(rows[..i], escape)
    {
      var cellsHtml := RenderCells(CellTag(i), rows[i], escape);
      RowsHtmlStep(rows, i, escape);
      html := html + ("<tr>" + cellsHtml + "</tr>");
      i := i + 1;
    }
    assert rows[..i] == rows;
    html := html + DocumentTail;
  }

  lemma RowsHtmlStep(rows: seq<seq<string>>, i: nat, escape: string -> string)
    requires i < |rows|
    ensures DocumentHead + RowsHtml(rows[..i + 1], escape)
         == (DocumentHead + RowsHtml(rows[..i], escape)) + RowHtml(i, rows[i], escape)
  {
    assert rows[..i + 1][..i] == rows[..i];
  }

  /** The inner loop of the export: one `th`/`td` element per cell. */
  method RenderCells(tag: string, row: seq<string>, escape: string -> string) returns (html: string)
    ensures html == CellsHtml(tag, row, escape)
  {
    html := "";
    var j := 0;
    while j < |row|
      invariant 0 <= j <= |row|
      invariant html == CellsHtml(tag, row[..j], escape)
    {
      html := html + ("<" + tag + ">" + escape(row[j]) + "</" + tag + ">");
      assert row[..j + 1][..j] == row[..j];
      j := j + 1;
    }
    assert row[..j] == row;
  }

  // ---------------------------------------------------------------------
  // Decoding the generated markup

  /** A decoded cell: its tag and its unescaped text. */
  datatype Cell = Cell(tag: string, text: string)

  /** Reads the cells of one row up to its `</tr>`; returns the cells and
      the text after `</tr>`. */
  function DecodeCells(s: string, acc: seq<Cell>, unescape: string -> string): (r: Option<(seq<Cell>, string)>)
    ensures r.Some? ==> |r.value.1| + 5 <= |s|
    decreases |s|
  {
    if |s| >= 5 && s[..5] == "</tr>" then Some((acc, s[5..]))
    else if |s| >= 4 && s[0] == '<' && s[3] == '>' && (s[1..3] == "th" || s[1..3] == "td") then
      var tag := s[1..3];
      var body := s[4..];
      var k := IndexOf(body, '<');
      var after := body[k..];
      if |after| >= 5 && after[..5] == "</" + tag + ">" then
        DecodeCells(after[5..], acc + [Cell(tag, unescape(body[..k]))], unescape)
      else None
    else None
  }

  /** Reads a sequence of rows. */
  function DecodeRows(s: string, acc: seq<seq<Cell>>, unescape: string -> string): (r: Option<seq<seq<Cell>>>)
    decreases |s|
  {
    if s == [] then Some(acc)
    else if |s| >= 4 && s[..4] == "<tr>" then
      match DecodeCells(s[4..], [], unescape)
      case None => None
      case Some((cells, rest)) => DecodeRows(rest, acc + [cells], unescape)
    else None
  }

  /** Reads a whole document. */
  function DecodeTable(html: string, unescape: string -> string): (r: Option<seq<seq<Cell>>>)
  {
    if |html| >= |DocumentHead| + |DocumentTail|
       && html[..|DocumentHead|] == DocumentHead
       && html[|html| - |DocumentTail|..] == DocumentTail
    then DecodeRows(html[|DocumentHead|..|html| - |DocumentTail|], [], unescape)
    else None
  }

  /** What decoding should give: every record's cells, tagged `th` in the
      first row and `td` after it. */
  function TaggedRow(rowIndex: nat, cells: seq<string>): (r: seq<Cell>)
    ensures |r| == |cells|
    ensures forall j :: 0 <= j < |cells| ==> r[j] == Cell(CellTag(rowIndex), cells[j])
  {
    if cells == [] then [] else TaggedRow(rowIndex, cells[..|cells| - 1]) + [Cell(CellTag(rowIndex), cells[|cells| - 1])]
  }

  function TaggedRows(rows: seq<seq<string>>): (r: seq<seq<Cell>>)
    ensures |r| == |rows|
    ensures forall i :: 0 <= i < |rows| ==> r[i] == TaggedRow(i, rows[i])
  {
    if rows == [] then [] else TaggedRows(rows[..|rows| - 1]) + [TaggedRow(|rows| - 1, rows[|rows| - 1])]
  }

  /** The property an escaping must have for the table to be decodable:
      the escaped cell contains no `<` and unescaping restores it. */
  predicate Recoverable(cell: string, escape: string -> string, unescape: string -> string)
  {
    '<' !in escape(cell) && unescape(escape(cell)) == cell
  }

  /** A generated cell followed by more text opens with its tag, and its
      escaped text follows the opening tag. */
  lemma CellLayout(tag: string, e: string, rest: string)
    requires tag == "th" || tag == "td"
    ensures var s := CellHtml(tag, e) + rest;
            |s| >= 4 && s[0] == '<' && s[3] == '>' && s[1..3] == tag
            && !(|s| >= 5 && s[..5] == "</tr>")
            && s[4..] == e + ("</" + tag + ">" + rest)
  {
    var s := CellHtml(tag, e) + rest;
    assert s == "<" + tag + ">" + (e + ("</" + tag + ">" + rest));
    assert s[1] == tag[0] == 't';
    assert s[1..3] == tag;
    assert s[4..] == e + ("</" + tag + ">" + rest);
  }

  /** Escaped text without `<` ends at the closing tag. */
  lemma ClosingTag(tag: string, e: string, rest: string)
    requires |tag| == 2 && '<' !in e
    ensures var body := e + ("</" + tag + ">" + rest);
            IndexOf(body, '<') == |e| && body[..|e|] == e
            && |body[|e|..]| >= 5 && body[|e|..][..5] == "</" + tag + ">" && body[|e|..][5..] == rest
  {
    var tail := "</" + tag + ">" + rest;
    var body := e + tail;
    IndexOfPrefix(e, tail, '<');
    assert body[..|e|] == e;
    assert body[|e|..] == tail;
    assert tail[..5] == "</" + tag + ">";
    assert tail[5..] == rest;
  }

  lemma DecodeOneCell(tag: string, text: string, rest: string, acc: seq<Cell>, escape: string -> string, unescape: string -> string)
    requires tag == "th" || tag == "td"
    requires Recoverable(text, escape, unescape)
    ensures DecodeCells(CellHtml(tag, escape(text)) + rest, acc, unescape)
         == DecodeCells(rest, acc + [Cell(tag, text)], unescape)
  {
    var e := escape(text);
    CellLayout(tag, e, rest);
    ClosingTag(tag, e, rest);
  }

  lemma {:induction false} DecodeCellsOfRow(tag: string, cells: seq<string>, rest: string, acc: seq<Cell>,
                                            escape: string -> string, unescape: string -> string)
    requires tag == "th" || tag == "td"
    requires forall j :: 0 <= j < |cells| ==> Recoverable(cells[j], escape, unescape)
    ensures DecodeCells(CellsHtml(tag, cells, escape) + rest, acc, unescape)
         == DecodeCells(rest, acc + Cells(tag, cells), unescape)
    decreases |cells|
  {
    if cells == [] {
      assert CellsHtml(tag, cells, escape) + rest == rest;
      assert acc + Cells(tag, cells) == acc;
    } else {
      var init := cells[..|cells| - 1];
      var last := cells[|cells| - 1];
      var lastHtml := CellHtml(tag, escape(last));
      assert CellsHtml(tag, cells, escape) + rest == CellsHtml(tag, init, escape) + (lastHtml + rest);
      DecodeCellsOfRow(tag, init, lastHtml + rest, acc, escape, unescape);
      DecodeOneCell(tag, last, rest, acc + Cells(tag, init), escape, unescape);
      assert acc + Cells(tag, init) + [Cell(tag, last)] == acc + Cells(tag, cells);
    }
  }

  function Cells(tag: string, cells: seq<string>): (r: seq<Cell>)
    ensures |r| == |cells|
  {
    if cells == [] then [] else Cells(tag, cells[..|cells| - 1]) + [Cell(tag, cells[|cells| - 1])]
  }

  lemma {:induction false} CellsIsTaggedRow(rowIndex: nat, cells: seq<string>)
    ensures Cells(CellTag(rowIndex), cells) == TaggedRow(rowIndex, cells)
    decreases |cells|
  {
    if cells != [] {
      CellsIsTaggedRow(rowIndex, cells[..|cells| - 1]);
    }
  }

  /** A closing `</tr>` ends the row. */
  lemma CloseRow(rest: string, acc: seq<Cell>, unescape: string -> string)
    ensures DecodeCells("</tr>" + rest, acc, unescape) == Some((acc, rest))
  {
    assert ("</tr>" + rest)[..5] == "</tr>" && ("</tr>" + rest)[5..] == rest;
  }

  /** A generated row followed by more text opens with `<tr>`. */
  lemma RowLayout(rowIndex: nat, cells: seq<string>, rest: string, escape: string -> string)
    ensures var s := RowHtml(rowIndex, cells, escape) + rest;
            |s| >= 4 && s[..4] == "<tr>"
            && s[4..] == CellsHtml(CellTag(rowIndex), cells, escape) + ("</tr>" + rest)
  {
    var inner := CellsHtml(CellTag(rowIndex), cells, escape);
    var s := RowHtml(rowIndex, cells, escape) + rest;
    assert s == "<tr>" + (inner + ("</tr>" + rest));
  }

  lemma DecodeOneRow(rowIndex: nat, cells: seq<string>, rest: string, acc: seq<seq<Cell>>,
                     escape: string -> string, unescape: string -> string)
    requires forall j :: 0 <= j < |cells| ==> Recoverable(cells[j], escape, unescape)
    ensures DecodeRows(RowHtml(rowIndex, cells, escape) + rest, acc, unescape)
         == DecodeRows(rest, acc + [TaggedRow(rowIndex, cells)], unescape)
  {
    var tag := CellTag(rowIndex);
    RowLayout(rowIndex, cells, rest, escape);
    DecodeCellsOfRow(tag, cells, "</tr>" + rest, [], escape, unescape);
    CloseRow(rest, [] + Cells(tag, cells), unescape);
    assert [] + Cells(tag, cells) == Cells(tag, cells);
    CellsIsTaggedRow(rowIndex, cells);
  }

  /** The rows' markup splits before its last row. */
  lemma RowsHtmlSplit(rows: seq<seq<string>>, rest: string, escape: string -> string)
    requires rows != []
    ensures RowsHtml(rows, escape) + rest
         == RowsHtml(rows[..|rows| - 1], escape) + (RowHtml(|rows| - 1, rows[|rows| - 1], escape) + rest)
  {
  }

  /** The expected rows split before the last one. */
  lemma TaggedRowsSplit(rows: seq<seq<string>>, acc: seq<seq<Cell>>)
    requires rows != []
    ensures acc + TaggedRows(rows[..|rows| - 1]) + [TaggedRow(|rows| - 1, rows[|rows| - 1])] == acc + TaggedRows(rows)
  {
  }

  lemma {:induction false} DecodeRowsOfTable(rows: seq<seq<string>>, rest: string, acc: seq<seq<Cell>>,
                                             escape: string -> string, unescape: string -> string)
    requires forall i, j :: 0 <= i < |rows| && 0 <= j < |rows[i]| ==> Recoverable(rows[i][j], escape, unescape)
    ensures DecodeRows(RowsHtml(rows, escape) + rest, acc, unescape) == DecodeRows(rest, acc + TaggedRows(rows), unescape)
    decreases |rows|
  {
    if rows == [] {
      assert RowsHtml(rows, escape) + rest == rest;
      assert acc + TaggedRows(rows) == acc;
    } else {
      var init := rows[..|rows| - 1];
      var n := |rows| - 1;
      RowsHtmlSplit(rows, rest, escape);
      assert forall i :: 0 <= i < |init| ==> init[i] == rows[i];
      DecodeRowsOfTable(init, RowHtml(n, rows[n], escape) + rest, acc, escape, unescape);
      DecodeOneRow(n, rows[n], rest, acc + TaggedRows(init), escape, unescape);
      TaggedRowsSplit(rows, acc);
    }
  }

  /** Decoding the generated document gives back one row per record, in
      order, the first tagged `th` and the others `td`, with every cell's
      text restored, provided the escaping is recoverable on every cell. */
  lemma TableRoundTrip(rows: seq<seq<string>>, escape: string -> string, unescape: string -> string)
    requires forall i, j :: 0 <= i < |rows| && 0 <= j < |rows[i]| ==> Recoverable(rows[i][j], escape, unescape)
    ensures DecodeTable(TableHtml(rows, escape), unescape) == Some(TaggedRows(rows))
  {
    var body := RowsHtml(rows, escape);
    var html := TableHtml(rows, escape);
    assert html[..|DocumentHead|] == DocumentHead;
    assert html[|html| - |DocumentTail|..] == DocumentTail;
    assert html[|DocumentHead|..|html| - |DocumentTail|] == body;
    DecodeRowsOfTable(rows, [], [], escape, unescape);
    assert body + [] == body;
    assert [] + TaggedRows(rows) == TaggedRows(rows);
  }
}
