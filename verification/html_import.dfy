/** The import side of the HTML plugin (`import_from_html` and `_get_content`),
    with the lxml document abstracted away: a table is the list of its row
    elements, once `thead`/`tbody` wrappers are unwrapped, and a row element
    is the list of its cell elements in document order. */
module HtmlImport {
  import opened PyStr

  /** One cell element, seen through the two things the importer asks of it:
      its `text_content()` and its serialised markup (`tostring`). */
  datatype CellElement = CellElement(textContent: string, markup: string)

  datatype Option<T> = None | Some(value: T)

  /** The two failures the import raises on its own account. */
  datatype ImportError =
    | TableIndexOutOfRange  // `tables[index]` raises IndexError
    | EmptyRowList          // `max()` over no rows raises ValueError

  datatype Result<T> = Ok(value: T) | Err(error: ImportError)

  /** Provenance handed to the table factory together with the rows. */
  datatype Meta = Meta(importedFrom: string, filename: Option<string>)

  /** What the import hands to `create_table`. */
  datatype Imported = Imported(rows: seq<seq<string>>, meta: Meta)

  // ---------------------------------------------------------------------------
  // _get_content

  /** `_get_content` up to, and not including, entity unescaping: the text
      between the first `>` and the last `<` of the serialised element, with
      ASCII whitespace stripped (`tostring` yields a byte string). */
  function RawContent(markup: string): (r: string)
    ensures |r| <= |markup|
    ensures r != [] ==> !IsSpace(ByteSpace, r[0]) && !IsSpace(ByteSpace, r[|r| - 1])
  {
    Strip(ByteSpace, InnerSlice(markup))
  }

  /** `content[content.find('>') + 1:content.rfind('<')]`: the text strictly
      between the first `>` and the last `<` when they come in that order. */
  function InnerSlice(markup: string): (r: string)
    ensures |r| <= |markup|
    ensures 0 <= Find(markup, '>') < RFind(markup, '<') ==>
              r == markup[Find(markup, '>') + 1..RFind(markup, '<')]
    ensures 0 <= RFind(markup, '<') <= Find(markup, '>') ==> r == []
  {
    Slice(markup, Find(markup, '>') + 1, RFind(markup, '<'))
  }

  /** `i` is where `c` first occurs in `s`. */
  ghost predicate FirstAt(s: string, c: char, i: int)
  {
    0 <= i < |s| && s[i] == c && forall k :: 0 <= k < i ==> s[k] != c
  }

  /** `j` is where `c` last occurs in `s`. */
  ghost predicate LastAt(s: string, c: char, j: int)
  {
    0 <= j < |s| && s[j] == c && forall k :: j < k < |s| ==> s[k] != c
  }

  lemma FirstAtUnique(s: string, c: char, i: int, i': int)
    requires FirstAt(s, c, i) && FirstAt(s, c, i')
    ensures i == i'
  {
  }

  lemma LastAtUnique(s: string, c: char, j: int, j': int)
    requires LastAt(s, c, j) && LastAt(s, c, j')
    ensures j == j'
  {
  }

  /** With both characters present, the content is what lies strictly between
      the first `>` and the last `<`, stripped; nothing when they are out of
      order. */
  lemma ContentBetweenTags(markup: string, i: int, j: int)
    requires FirstAt(markup, '>', i) && LastAt(markup, '<', j)
    ensures i < j ==> RawContent(markup) == Strip(ByteSpace, markup[i + 1..j])
    ensures j <= i ==> RawContent(markup) == []
  {
    assert InnerSlice(markup) == Slice(markup, i + 1, j) by {
      FirstAtUnique(markup, '>', Find(markup, '>'), i);
      LastAtUnique(markup, '<', RFind(markup, '<'), j);
    }
    if j <= i {
      StripAllSpace(ByteSpace, []);
    }
  }

  /** Without a `>`, `find` gives -1 and the slice starts at the beginning. */
  lemma ContentWithoutGt(markup: string, j: int)
    requires '>' !in markup && LastAt(markup, '<', j)
    ensures RawContent(markup) == Strip(ByteSpace, markup[..j])
  {
    assert InnerSlice(markup) == markup[..j] by {
      LastAtUnique(markup, '<', RFind(markup, '<'), j);
    }
  }

  /** Without a `<`, `rfind` gives -1, which as a slice bound means "all but
      the last character"; with no `>` either, the slice starts at 0. */
  lemma ContentWithoutTags(markup: string)
    requires '<' !in markup && '>' !in markup && markup != []
    ensures RawContent(markup) == Strip(ByteSpace, markup[..|markup| - 1])
  {
    assert InnerSlice(markup) == markup[..|markup| - 1];
  }

  /** Without a `<` but with a `>`, the content runs from after the first `>`
      to before the last character, and is empty when that `>` is the last
      character. */
  lemma ContentWithoutLt(markup: string, i: int)
    requires '<' !in markup && FirstAt(markup, '>', i)
    ensures i < |markup| - 1 ==> RawContent(markup) == Strip(ByteSpace, markup[i + 1..|markup| - 1])
    ensures i == |markup| - 1 ==> RawContent(markup) == []
  {
    assert InnerSlice(markup) == Slice(markup, i + 1, -1) by {
      FirstAtUnique(markup, '>', Find(markup, '>'), i);
    }
    if i == |markup| - 1 {
      StripAllSpace(ByteSpace, []);
    } else {
      assert Slice(markup, i + 1, -1) == markup[i + 1..|markup| - 1];
    }
  }

  // ---------------------------------------------------------------------------
  // Row shaping

  /** Which `strip()` applies to a `text_content()` result. Under Python 2,
      lxml hands back a byte string for ASCII-only text and a `unicode`
      string otherwise. */
  function TextWhitespace(text: string): (ws: Whitespace)
    ensures ws == ByteSpace <==> forall k :: 0 <= k < |text| ==> text[k] < '\U{80}'
  {
    if forall k :: 0 <= k < |text| ==> text[k] < '\U{80}' then ByteSpace else UnicodeSpace
  }

  /** The value of one cell: the inner markup when `preserveHtml`, else the
      text content stripped of whitespace. */
  function CellValue(cell: CellElement, preserveHtml: bool): (r: string)
    ensures preserveHtml ==> |r| <= |cell.markup|
    ensures !preserveHtml ==> |r| <= |cell.textContent|
    ensures !preserveHtml && r != [] ==>
              !IsSpace(TextWhitespace(cell.textContent), r[0]) &&
              !IsSpace(TextWhitespace(cell.textContent), r[|r| - 1])
  {
    if preserveHtml then RawContent(cell.markup)
    else Strip(TextWhitespace(cell.textContent), cell.textContent)
  }

  /** An ASCII-only text is stripped as a byte string, so a leading
      separator `\x1c`..`\x1f` stays in the plain-mode value, where a
      `unicode` strip would have removed it. */
  lemma PlainAsciiKeepsSeparator(cell: CellElement)
    requires cell.textContent != []
    requires forall k :: 0 <= k < |cell.textContent| ==> cell.textContent[k] < '\U{80}'
    requires '\U{1C}' <= cell.textContent[0] <= '\U{1F}'
    ensures CellValue(cell, false) != [] && CellValue(cell, false)[0] == cell.textContent[0]
    ensures var u := Strip(UnicodeSpace, cell.textContent); u == [] || u[0] != cell.textContent[0]
  {
    var t := cell.textContent;
    assert !IsSpace(ByteSpace, t[0]) && IsSpace(UnicodeSpace, t[0]);
    assert LeadingSpaces(ByteSpace, t) == 0;
  }

  /** One row of values from one row element. */
  function ShapeRow(cells: seq<CellElement>, preserveHtml: bool): (r: seq<string>)
    ensures |r| == |cells|
    ensures forall j :: 0 <= j < |r| ==> r[j] == CellValue(cells[j], preserveHtml)
  {
    if cells == [] then []
    else [CellValue(cells[0], preserveHtml)] + ShapeRow(cells[1..], preserveHtml)
  }

  /** The row matrix: one row per row element, in document order. */
  function ShapeRows(rowElements: seq<seq<CellElement>>, preserveHtml: bool): (r: seq<seq<string>>)
    ensures |r| == |rowElements|
    ensures forall i :: 0 <= i < |r| ==> |r[i]| == |rowElements[i]|
    ensures forall i, j :: 0 <= i < |r| && 0 <= j < |r[i]| ==>
              r[i][j] == CellValue(rowElements[i][j], preserveHtml)
  {
    if rowElements == [] then []
    else [ShapeRow(rowElements[0], preserveHtml)] + ShapeRows(rowElements[1..], preserveHtml)
  }

  // ---------------------------------------------------------------------------
  // The colspan filter

  /** `max(len(row) for row in rows)`; Python raises on no rows. */
  function MaxLength<T>(rows: seq<seq<T>>): (m: nat)
    requires rows != []
    ensures forall i :: 0 <= i < |rows| ==> |rows[i]| <= m
    ensures exists i :: 0 <= i < |rows| && |rows[i]| == m
  {
    if |rows| == 1 then |rows[0]|
    else
      var rest := MaxLength(rows[1..]);
      assert forall i :: 1 <= i < |rows| ==> rows[i] == rows[1..][i - 1];
      if |rows[0]| >= rest then |rows[0]| else rest
  }

  /** `filter(lambda row: len(row) == width, rows)`. */
  function KeepWidth<T>(rows: seq<seq<T>>, width: nat): (r: seq<seq<T>>)
    ensures |r| <= |rows|
    ensures forall i :: 0 <= i < |r| ==> |r[i]| == width
  {
    if rows == [] then []
    else if |rows[0]| == width then [rows[0]] + KeepWidth(rows[1..], width)
    else KeepWidth(rows[1..], width)
  }

  /** `xs` is `ys` with some elements left out and the rest in order. */
  ghost predicate IsSubsequence<T>(xs: seq<T>, ys: seq<T>)
    decreases |ys|
  {
    xs == [] ||
    (ys != [] &&
     ((xs[0] == ys[0] && IsSubsequence(xs[1..], ys[1..])) || IsSubsequence(xs, ys[1..])))
  }

  /** The filter keeps rows in their original relative order. */
  lemma {:induction false} KeepWidthIsSubsequence<T>(rows: seq<seq<T>>, width: nat)
    ensures IsSubsequence(KeepWidth(rows, width), rows)
  {
    if rows != [] {
      KeepWidthIsSubsequence(rows[1..], width);
    }
  }

  /** The filter keeps every row of the given width, as often as it occurs,
      and no other row. */
  lemma {:induction false} KeepWidthCounts<T>(rows: seq<seq<T>>, width: nat)
    ensures forall row :: multiset(KeepWidth(rows, width))[row] ==
                          if |row| == width then multiset(rows)[row] else 0
  {
    if rows != [] {
      KeepWidthCounts(rows[1..], width);
      assert rows == [rows[0]] + rows[1..];
    }
  }

  /** When every row already has the given width, the filter changes nothing. */
  lemma {:induction false} KeepWidthUniform<T>(rows: seq<seq<T>>, width: nat)
    requires forall i :: 0 <= i < |rows| ==> |rows[i]| == width
    ensures KeepWidth(rows, width) == rows
  {
    if rows != [] {
      KeepWidthUniform(rows[1..], width);
    }
  }

  // ---------------------------------------------------------------------------
  // import_from_html

  /** `tables[index]` with Python's negative indices. */
  function SelectTable<T>(tables: seq<T>, index: int): (r: Result<T>)
    ensures r.Ok? <==> -|tables| <= index < |tables|
    ensures r.Ok? ==> exists k :: 0 <= k < |tables| && (k == index || k == index + |tables|) &&
                                  r.value == tables[k]
  {
    if 0 <= index < |tables| then Ok(tables[index])
    else if -|tables| <= index < 0 then Ok(tables[index + |tables|])
    else Err(TableIndexOutOfRange)
  }

  /** The rows of one table, after shaping and the colspan policy. The
      maximum row length is computed whatever the policy, so a table without
      rows fails either way. */
  function ImportRows(rowElements: seq<seq<CellElement>>, ignoreColspan: bool, preserveHtml: bool)
    : (r: Result<seq<seq<string>>>)
    ensures r.Err? <==> rowElements == []
    ensures r.Err? ==> r.error == EmptyRowList
    ensures r.Ok? && !ignoreColspan ==> r.value == ShapeRows(rowElements, preserveHtml)
    ensures r.Ok? && ignoreColspan ==>
              forall i :: 0 <= i < |r.value| ==> |r.value[i]| == MaxLength(rowElements)
  {
    var rows := ShapeRows(rowElements, preserveHtml);
    if rows == [] then Err(EmptyRowList)
    else
      var maxColumns := MaxLength(rows);
      assert maxColumns == MaxLength(rowElements) by { SameMaxLength(rows, rowElements); }
      Ok(if ignoreColspan then KeepWidth(rows, maxColumns) else rows)
  }

  /** Two row lists whose rows have the same lengths have the same maximum. */
  lemma SameMaxLength<T, U>(xs: seq<seq<T>>, ys: seq<seq<U>>)
    requires xs != [] && |xs| == |ys|
    requires forall i :: 0 <= i < |xs| ==> |xs[i]| == |ys[i]|
    ensures MaxLength(xs) == MaxLength(ys)
  {
    var a, b := MaxLength(xs), MaxLength(ys);
    var i :| 0 <= i < |xs| && |xs[i]| == a;
    var j :| 0 <= j < |ys| && |ys[j]| == b;
    assert |ys[i]| <= b && |xs[j]| <= a;
  }

  /** With `ignore_colspan`, the result holds exactly the shaped rows of
      maximal length, in their original order and multiplicity. */
  lemma ImportKeepsMaximalRows(rowElements: seq<seq<CellElement>>, preserveHtml: bool)
    requires rowElements != []
    ensures var rows := ShapeRows(rowElements, preserveHtml);
            var kept := ImportRows(rowElements, true, preserveHtml).value;
            IsSubsequence(kept, rows) &&
            forall row :: multiset(kept)[row] ==
                          if |row| == MaxLength(rows) then multiset(rows)[row] else 0
  {
    var rows := ShapeRows(rowElements, preserveHtml);
    KeepWidthIsSubsequence(rows, MaxLength(rows));
    KeepWidthCounts(rows, MaxLength(rows));
  }

  /** If every row element has the same number of cells, the colspan policy
      makes no difference. */
  lemma ImportUniformIgnoresPolicy(rowElements: seq<seq<CellElement>>, preserveHtml: bool)
    requires forall i, j :: 0 <= i < |rowElements| && 0 <= j < |rowElements| ==>
               |rowElements[i]| == |rowElements[j]|
    ensures ImportRows(rowElements, true, preserveHtml) == ImportRows(rowElements, false, preserveHtml)
  {
    if rowElements != [] {
      var rows := ShapeRows(rowElements, preserveHtml);
      KeepWidthUniform(rows, MaxLength(rows));
    }
  }

  /** `import_from_html` from the parsed tables on: pick the table, shape and
      filter its rows, and attach the provenance. The index is checked before
      the rows are looked at. */
  function ImportFromHtml(tables: seq<seq<seq<CellElement>>>, index: int, ignoreColspan: bool,
                          preserveHtml: bool, filename: Option<string>): (r: Result<Imported>)
    ensures !(-|tables| <= index < |tables|) ==> r == Err(TableIndexOutOfRange)
    ensures -|tables| <= index < |tables| ==>
              var table := tables[if index < 0 then index + |tables| else index];
              (r.Ok? <==> table != []) && (r.Err? ==> r.error == EmptyRowList)
    ensures r.Ok? ==> r.value.meta == Meta("html", filename)
    ensures r.Ok? ==> exists k :: 0 <= k < |tables| && (k == index || k == index + |tables|) &&
                                  ImportRows(tables[k], ignoreColspan, preserveHtml) == Ok(r.value.rows)
  {
    match SelectTable(tables, index)
    case Err(e) => Err(e)
    case Ok(table) =>
      match ImportRows(table, ignoreColspan, preserveHtml)
      case Err(e) => Err(e)
      case Ok(rows) => Ok(Imported(rows, Meta("html", filename)))
  }

  /** The colspan example: a full row of two cells followed by a row whose
      single cell spans both columns. Dropping mismatched rows keeps the full
      row alone; keeping them passes both rows through. */
  lemma ColspanExample(a: CellElement, b: CellElement, c: CellElement, preserveHtml: bool)
    ensures var va, vb, vc := CellValue(a, preserveHtml), CellValue(b, preserveHtml), CellValue(c, preserveHtml);
            ImportRows([[a, b], [c]], true, preserveHtml) == Ok([[va, vb]]) &&
            ImportRows([[a, b], [c]], false, preserveHtml) == Ok([[va, vb], [vc]])
  {
    var va, vb, vc := CellValue(a, preserveHtml), CellValue(b, preserveHtml), CellValue(c, preserveHtml);
    var rows := ShapeRows([[a, b], [c]], preserveHtml);
    assert rows[0] == [va, vb] && rows[1] == [vc];
    assert rows == [[va, vb], [vc]];
    assert MaxLength(rows) == 2;
    assert KeepWidth(rows, 2) == [[va, vb]];
  }
}
