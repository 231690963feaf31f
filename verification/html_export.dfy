/** The export side of the HTML plugin (`export_to_html`): the list of text
    lines of the HTML document, built row by row, and the document obtained
    by joining them with newlines. The data rows are the already serialised
    cell strings of the table; the field names come in column order. */
module HtmlExport {
  import opened PyStr

  const Prologue: seq<string> := ["<table>", "", "  <thead>", "    <tr>"]
  const HeadEnd: seq<string> := ["    </tr>", "  </thead>", "", "  <tbody>", ""]
  const Epilogue: seq<string> := ["  </tbody>", "</table>", ""]
  const RowEnd: seq<string> := ["    </tr>", ""]
  const CellOpen: string := "      <td>"
  const CellClose: string := "      </td>"

  /** The header line of one field, inserted verbatim. */
  function HeaderLine(field: string): string
  {
    "      <th>" + field + "</th>"
  }

  /** The CSS class of the data row numbered `index`, counting from 1. */
  function CssClass(index: int): (r: string)
    ensures r == "odd" <==> index % 2 == 1
    ensures r == "even" <==> index % 2 == 0
  {
    if index % 2 == 1 then "odd" else "even"
  }

  /** Row classes start at `odd` and alternate. */
  lemma CssClassAlternates(k: int)
    ensures CssClass(1) == "odd"
    ensures CssClass(k + 1) != CssClass(k) && CssClass(k + 2) == CssClass(k)
  {
  }

  function RowOpenLine(cssClass: string): string
  {
    "    <tr class=\"" + cssClass + "\">"
  }

  // ---------------------------------------------------------------------------
  // The specification of the line list

  function HeaderLines(fields: seq<string>): seq<string>
  {
    seq(|fields|, i requires 0 <= i < |fields| => HeaderLine(fields[i]))
  }

  /** Three lines per value: the opening tag, the value verbatim, the closing tag. */
  function CellLines(values: seq<string>): seq<string>
  {
    if values == [] then []
    else CellLines(values[..|values| - 1]) + [CellOpen, values[|values| - 1], CellClose]
  }

  /** The lines of the data row numbered `index`. */
  function RowLines(row: seq<string>, index: int): seq<string>
  {
    [RowOpenLine(CssClass(index))] + CellLines(row) + RowEnd
  }

  /** The lines of all data rows, the k-th row (from 1) numbered k. */
  function BodyLines(rows: seq<seq<string>>): seq<string>
  {
    if rows == [] then []
    else BodyLines(rows[..|rows| - 1]) + RowLines(rows[|rows| - 1], |rows|)
  }

  /** The whole line list that `export_to_html` joins: it opens with the
      table and header prologue, closes with the body and table epilogue, and
      holds one line per field and the lines of every data row between. */
  function ExportLines(fields: seq<string>, rows: seq<seq<string>>): (r: seq<string>)
    ensures |r| == 12 + |fields| + |BodyLines(rows)|
    ensures r[..4] == Prologue && r[|r| - 3..] == Epilogue
  {
    Prologue + HeaderLines(fields) + HeadEnd + BodyLines(rows) + Epilogue
  }

  /** The sum over the data rows of 3 * |row| + 3. */
  function BodyLineCount(rows: seq<seq<string>>): nat
  {
    if rows == [] then 0
    else BodyLineCount(rows[..|rows| - 1]) + 3 * |rows[|rows| - 1]| + 3
  }

  // ---------------------------------------------------------------------------
  // The loop of export_to_html

  /** Builds the line list as `export_to_html` does: fixed prologue, one
      header line per field, then per data row an opening line, three lines
      per value and two closing lines, then the fixed epilogue. */
  method BuildLines(fields: seq<string>, rows: seq<seq<string>>) returns (result: seq<string>)
    ensures result == ExportLines(fields, rows)
  {
    result := Prologue;
    var header := seq(|fields|, i requires 0 <= i < |fields| => HeaderLine(fields[i]));
    result := result + header;
    result := result + HeadEnd;
    ghost var head := result;
    for i := 0 to |rows|
      invariant result == head + BodyLines(rows[..i])
    {
      var index := i + 1;
      var row := rows[i];
      var cssClass := CssClass(index);
      ghost var before := result;
      result := result + [RowOpenLine(cssClass)];
      ghost var rowHead := result;
      for j := 0 to |row|
        invariant result == rowHead + CellLines(row[..j])
      {
        result := result + [CellOpen, row[j], CellClose];
        assert result == rowHead + CellLines(row[..j + 1]) by {
          CellLinesSnoc(row, j);
          AppendAssoc(rowHead, CellLines(row[..j]), [CellOpen, row[j], CellClose]);
        }
      }
      result := result + RowEnd;
      assert result == head + BodyLines(rows[..i + 1]) by {
        assert row[..|row|] == row;
        AppendAssoc(before, [RowOpenLine(cssClass)], CellLines(row));
        AppendAssoc(before, [RowOpenLine(cssClass)] + CellLines(row), RowEnd);
        AppendAssoc(head, BodyLines(rows[..i]), RowLines(row, index));
        BodyLinesSnoc(rows, i);
      }
    }
    result := result + Epilogue;
    assert rows[..|rows|] == rows;
  }

  lemma AppendAssoc<T>(a: seq<T>, b: seq<T>, c: seq<T>)
    ensures a + b + c == a + (b + c)
  {
  }

  lemma CellLinesSnoc(row: seq<string>, j: nat)
    requires j < |row|
    ensures CellLines(row[..j + 1]) == CellLines(row[..j]) + [CellOpen, row[j], CellClose]
  {
    assert row[..j + 1][..j] == row[..j];
  }

  lemma BodyLinesSnoc(rows: seq<seq<string>>, i: nat)
    requires i < |rows|
    ensures BodyLines(rows[..i + 1]) == BodyLines(rows[..i]) + RowLines(rows[i], i + 1)
  {
    assert rows[..i + 1][..i] == rows[..i];
  }

  /** `export_to_html` without a sink: the lines joined with newlines. When no
      field name and no value holds a newline, the document splits back into
      exactly those lines. */
  method ExportToHtml(fields: seq<string>, rows: seq<seq<string>>) returns (html: string)
    ensures html == JoinLines(ExportLines(fields, rows))
    ensures NoNewlines(fields, rows) ==> SplitLines(html) == ExportLines(fields, rows)
  {
    var lines := BuildLines(fields, rows);
    html := JoinLines(lines);
    if NoNewlines(fields, rows) {
      ExportLinesNoNewline(fields, rows);
      SplitJoin(lines);
    }
  }

  // ---------------------------------------------------------------------------
  // What the line list looks like

  lemma {:induction false} CellLinesLayout(values: seq<string>)
    ensures |CellLines(values)| == 3 * |values|
    ensures forall j :: 0 <= j < |values| ==>
              CellLines(values)[3 * j] == "      <td>" &&
              CellLines(values)[3 * j + 1] == values[j] &&
              CellLines(values)[3 * j + 2] == "      </td>"
  {
    if values != [] {
      var init := values[..|values| - 1];
      CellLinesLayout(init);
      forall j | 0 <= j < |init| ensures values[j] == init[j] { }
    }
  }

  lemma {:induction false} BodyLinesLength(rows: seq<seq<string>>)
    ensures |BodyLines(rows)| == BodyLineCount(rows)
  {
    if rows != [] {
      BodyLinesLength(rows[..|rows| - 1]);
      CellLinesLayout(rows[|rows| - 1]);
    }
  }

  /** The lines of the first `k` data rows open the lines of all of them. */
  lemma {:induction false} BodyLinesPrefix(rows: seq<seq<string>>, k: nat)
    requires k <= |rows|
    ensures |BodyLines(rows[..k])| <= |BodyLines(rows)|
    ensures BodyLines(rows)[..|BodyLines(rows[..k])|] == BodyLines(rows[..k])
    decreases |rows|
  {
    if k == |rows| {
      assert rows[..k] == rows;
    } else {
      var init := rows[..|rows| - 1];
      assert init[..k] == rows[..k];
      BodyLinesPrefix(init, k);
    }
  }

  /** The export has 4 + |fields| + 5 + sum(3 * |row| + 3) + 3 lines. */
  lemma ExportLineCount(fields: seq<string>, rows: seq<seq<string>>)
    ensures |ExportLines(fields, rows)| == 4 + |fields| + 5 + BodyLineCount(rows) + 3
  {
    BodyLinesLength(rows);
  }

  /** Each field gives the line `      <th>FIELD</th>`, in field order, right
      after the four prologue lines. */
  lemma ExportHeaderAt(fields: seq<string>, rows: seq<seq<string>>, i: nat)
    requires i < |fields|
    ensures 4 + i < |ExportLines(fields, rows)|
    ensures ExportLines(fields, rows)[4 + i] == "      <th>" + fields[i] + "</th>"
  {
  }

  /** The lines of one data row: the opening line with its class, each value
      verbatim between `<td>` lines, then `    </tr>` and an empty line. */
  lemma RowLinesLayout(row: seq<string>, index: int)
    ensures var lines := RowLines(row, index);
            var n := |row|;
            |lines| == 3 * n + 3 &&
            lines[0] == "    <tr class=\"" + (if index % 2 == 1 then "odd" else "even") + "\">" &&
            (forall j :: 0 <= j < n ==>
               lines[1 + 3 * j] == "      <td>" &&
               lines[2 + 3 * j] == row[j] &&
               lines[3 + 3 * j] == "      </td>") &&
            lines[1 + 3 * n] == "    </tr>" &&
            lines[2 + 3 * n] == ""
  {
    CellLinesLayout(row);
    var lines := RowLines(row, index);
    var cells := CellLines(row);
    assert lines == [RowOpenLine(CssClass(index))] + cells + RowEnd;
    forall j | 0 <= j < |row|
      ensures lines[1 + 3 * j] == cells[3 * j] && lines[2 + 3 * j] == cells[3 * j + 1] &&
              lines[3 + 3 * j] == cells[3 * j + 2]
    {
    }
  }

  /** Within the body, the data row numbered k + 1 occupies the lines that
      follow those of the k rows before it. */
  lemma BodyRowAt(rows: seq<seq<string>>, k: nat)
    requires k < |rows|
    ensures var o := BodyLineCount(rows[..k]);
            var rowLines := RowLines(rows[k], k + 1);
            o + |rowLines| <= |BodyLines(rows)| &&
            BodyLines(rows)[o..o + |rowLines|] == rowLines
  {
    BodyLinesSnoc(rows, k);
    BodyLinesPrefix(rows, k + 1);
    BodyLinesLength(rows[..k]);
    var o := BodyLineCount(rows[..k]);
    var upTo := BodyLines(rows[..k + 1]);
    var rowLines := RowLines(rows[k], k + 1);
    assert upTo[o..] == rowLines;
    assert BodyLines(rows)[..|upTo|] == upTo;
    assert BodyLines(rows)[o..o + |rowLines|] == upTo[o..];
  }

  /** In the export, the data row numbered k + 1 occupies the lines from
      9 + |fields| + the lines of the k rows before it. */
  lemma ExportRowSlice(fields: seq<string>, rows: seq<seq<string>>, k: nat)
    requires k < |rows|
    ensures var s := 9 + |fields| + BodyLineCount(rows[..k]);
            var rowLines := RowLines(rows[k], k + 1);
            s + |rowLines| <= |ExportLines(fields, rows)| &&
            ExportLines(fields, rows)[s..s + |rowLines|] == rowLines
  {
    var o := BodyLineCount(rows[..k]);
    var body := BodyLines(rows);
    var rowLines := RowLines(rows[k], k + 1);
    BodyRowAt(rows, k);
    var head := Prologue + HeaderLines(fields) + HeadEnd;
    assert |head| == 9 + |fields|;
    SliceOfSlice(ExportLines(fields, rows), head, body, Epilogue, o, rowLines);
  }

  lemma SliceOfSlice<T>(whole: seq<T>, before: seq<T>, middle: seq<T>, after: seq<T>, o: nat, part: seq<T>)
    requires whole == before + middle + after
    requires o + |part| <= |middle| && middle[o..o + |part|] == part
    ensures |before| + o + |part| <= |whole|
    ensures whole[|before| + o..|before| + o + |part|] == part
  {
    assert whole[|before|..|before| + |middle|] == middle;
  }

  /** Each value of the data row numbered k + 1 appears verbatim on its own
      line between a `<td>` line and a `</td>` line, in cell order, right
      after the row's opening line. */
  lemma ExportRowCells(fields: seq<string>, rows: seq<seq<string>>, k: nat)
    requires k < |rows|
    ensures var s := 9 + |fields| + BodyLineCount(rows[..k]);
            s + 3 * |rows[k]| < |ExportLines(fields, rows)| &&
            forall j :: 0 <= j < |rows[k]| ==>
              ExportLines(fields, rows)[s + 1 + 3 * j] == "      <td>" &&
              ExportLines(fields, rows)[s + 2 + 3 * j] == rows[k][j] &&
              ExportLines(fields, rows)[s + 3 + 3 * j] == "      </td>"
  {
    ExportRowSlice(fields, rows, k);
    RowCellsAt(ExportLines(fields, rows), 9 + |fields| + BodyLineCount(rows[..k]), rows[k], k + 1);
  }

  /** The data row numbered k + 1 closes with `    </tr>` and an empty line. */
  lemma ExportRowClose(fields: seq<string>, rows: seq<seq<string>>, k: nat)
    requires k < |rows|
    ensures var s := 9 + |fields| + BodyLineCount(rows[..k]);
            var n := |rows[k]|;
            s + 3 * n + 2 < |ExportLines(fields, rows)| &&
            ExportLines(fields, rows)[s + 1 + 3 * n] == "    </tr>" &&
            ExportLines(fields, rows)[s + 2 + 3 * n] == ""
  {
    ExportRowSlice(fields, rows, k);
    RowCloseAt(ExportLines(fields, rows), 9 + |fields| + BodyLineCount(rows[..k]), rows[k], k + 1);
  }

  /** Reads the value lines of a data row off any line list holding its lines. */
  lemma RowCellsAt(lines: seq<string>, s: nat, row: seq<string>, index: int)
    requires s + |RowLines(row, index)| <= |lines|
    requires lines[s..s + |RowLines(row, index)|] == RowLines(row, index)
    ensures s + 3 * |row| < |lines|
    ensures forall j :: 0 <= j < |row| ==>
              lines[s + 1 + 3 * j] == "      <td>" &&
              lines[s + 2 + 3 * j] == row[j] &&
              lines[s + 3 + 3 * j] == "      </td>"
  {
    var rowLines := RowLines(row, index);
    RowLinesLayout(row, index);
    forall j | 0 <= j < |row|
      ensures lines[s + 1 + 3 * j] == "      <td>" && lines[s + 2 + 3 * j] == row[j] &&
              lines[s + 3 + 3 * j] == "      </td>"
    {
      assert lines[s + (1 + 3 * j)] == lines[s..s + |rowLines|][1 + 3 * j];
      assert lines[s + (2 + 3 * j)] == lines[s..s + |rowLines|][2 + 3 * j];
      assert lines[s + (3 + 3 * j)] == lines[s..s + |rowLines|][3 + 3 * j];
    }
  }

  /** Reads the two closing lines of a data row off any line list holding its lines. */
  lemma RowCloseAt(lines: seq<string>, s: nat, row: seq<string>, index: int)
    requires s + |RowLines(row, index)| <= |lines|
    requires lines[s..s + |RowLines(row, index)|] == RowLines(row, index)
    ensures s + 3 * |row| + 2 < |lines|
    ensures lines[s + 1 + 3 * |row|] == "    </tr>" && lines[s + 2 + 3 * |row|] == ""
  {
    var rowLines := RowLines(row, index);
    var n := |row|;
    RowLinesLayout(row, index);
    assert lines[s + (1 + 3 * n)] == lines[s..s + |rowLines|][1 + 3 * n];
    assert lines[s + (2 + 3 * n)] == lines[s..s + |rowLines|][2 + 3 * n];
  }

  /** Reads the opening line of a data row off any line list holding its lines. */
  lemma RowOpenAt(lines: seq<string>, s: nat, row: seq<string>, index: int)
    requires s + |RowLines(row, index)| <= |lines|
    requires lines[s..s + |RowLines(row, index)|] == RowLines(row, index)
    ensures s < |lines|
    ensures lines[s] == "    <tr class=\"" + (if index % 2 == 1 then "odd" else "even") + "\">"
  {
    assert lines[s] == lines[s..s + |RowLines(row, index)|][0];
  }

  /** The opening line of the data row numbered k + 1 carries class `odd`
      exactly when k + 1 is odd. */
  lemma RowOpenInExport(fields: seq<string>, rows: seq<seq<string>>, k: nat)
    requires k < |rows|
    ensures 9 + |fields| + BodyLineCount(rows[..k]) < |ExportLines(fields, rows)|
    ensures ExportLines(fields, rows)[9 + |fields| + BodyLineCount(rows[..k])] ==
            "    <tr class=\"" + (if (k + 1) % 2 == 1 then "odd" else "even") + "\">"
  {
    ExportRowSlice(fields, rows, k);
    RowOpenAt(ExportLines(fields, rows), 9 + |fields| + BodyLineCount(rows[..k]), rows[k], k + 1);
  }

  /** Three data rows get the classes odd, even, odd. */
  lemma ThreeRowsAlternate(fields: seq<string>, rows: seq<seq<string>>)
    requires |rows| == 3
    ensures var lines := ExportLines(fields, rows);
            var second := 9 + |fields| + 3 * |rows[0]| + 3;
            var third := second + 3 * |rows[1]| + 3;
            third < |lines| &&
            lines[9 + |fields|] == "    <tr class=\"odd\">" &&
            lines[second] == "    <tr class=\"even\">" &&
            lines[third] == "    <tr class=\"odd\">"
  {
    assert rows[..0] == [];
    assert rows[..1][..0] == [] && rows[..2][..1] == rows[..1];
    assert BodyLineCount(rows[..1]) == 3 * |rows[0]| + 3;
    assert BodyLineCount(rows[..2]) == 3 * |rows[0]| + 3 * |rows[1]| + 6;
    RowOpenInExport(fields, rows, 0);
    RowOpenInExport(fields, rows, 1);
    RowOpenInExport(fields, rows, 2);
  }

  // ---------------------------------------------------------------------------
  // Newlines

  /** No field name and no value holds a newline. */
  predicate NoNewlines(fields: seq<string>, rows: seq<seq<string>>)
  {
    (forall i :: 0 <= i < |fields| ==> '\n' !in fields[i]) &&
    (forall k, j :: 0 <= k < |rows| && 0 <= j < |rows[k]| ==> '\n' !in rows[k][j])
  }

  /** Only field names and values can bring a newline into a line. */
  lemma ExportLinesNoNewline(fields: seq<string>, rows: seq<seq<string>>)
    requires NoNewlines(fields, rows)
    ensures forall t :: 0 <= t < |ExportLines(fields, rows)| ==> '\n' !in ExportLines(fields, rows)[t]
  {
    BodyLinesNoNewline(rows);
    var lines := ExportLines(fields, rows);
    assert forall t :: 0 <= t < |Prologue| ==> '\n' !in Prologue[t];
    assert forall t :: 0 <= t < |HeadEnd| ==> '\n' !in HeadEnd[t];
    assert forall t :: 0 <= t < |Epilogue| ==> '\n' !in Epilogue[t];
    assert forall t :: 0 <= t < |fields| ==> '\n' !in HeaderLines(fields)[t];
  }

  lemma {:induction false} BodyLinesNoNewline(rows: seq<seq<string>>)
    requires forall k, j :: 0 <= k < |rows| && 0 <= j < |rows[k]| ==> '\n' !in rows[k][j]
    ensures forall t :: 0 <= t < |BodyLines(rows)| ==> '\n' !in BodyLines(rows)[t]
  {
    if rows != [] {
      var init := rows[..|rows| - 1];
      var row := rows[|rows| - 1];
      BodyLinesNoNewline(init);
      CellLinesLayout(row);
      var cells := CellLines(row);
      forall t | 0 <= t < |cells| ensures '\n' !in cells[t] {
        var j := t / 3;
        assert t == 3 * j || t == 3 * j + 1 || t == 3 * j + 2;
      }
      assert '\n' !in RowOpenLine(CssClass(|rows|));
      assert forall t :: 0 <= t < |RowEnd| ==> '\n' !in RowEnd[t];
    }
  }
}
