# HTML table plugin of `rows`, modelled in Dafny

This project models the HTML plugin of the `rows` tabular-data library
(`rows/plugins/html.py`). The plugin converts in two directions. Import takes
one `<table>` out of an HTML document and turns it into rows of cell strings.
Export turns field names and serialised data rows back into an HTML document
string.

The HTML parser (lxml) is abstracted away. A parsed table is given as the list
of its row elements, with `thead`/`tbody` wrappers already unwrapped. Each row
element is the list of its cell elements in document order. A cell element is
a `CellElement`: the pair of its `text_content()` and its serialised markup
(`tostring`).

Three modules:

- `PyStr` (`pystr.dfy`) holds the Python 2 string builtins the plugin relies
  on: `find`, `rfind`, slicing with integer bounds (negative bounds count from
  the end, then clamp), `strip()` with no argument and `'\n'.join`. The plugin
  never splits a string; `split('\n')` is there only as the inverse of the
  join, to state that the exported document splits back into its lines.
  `strip()` is parameterised by the whitespace set. A byte string strips ASCII
  whitespace. A `unicode` string strips what Python 2.7's `unicode.isspace`
  accepts. A plain-mode cell's `text_content()` is a byte string when the text
  is ASCII-only and a `unicode` string otherwise (`TextWhitespace`).
- `HtmlImport` (`html_import.dfy`) holds `_get_content` up to entity
  unescaping (`RawContent`), the cell-value extraction in both modes
  (`CellValue`, `ShapeRows`), the maximum row length and the colspan filter
  (`MaxLength`, `KeepWidth`), the table choice by index (`SelectTable`), and the
  import as a whole (`ImportRows`, `ImportFromHtml`). The source raises two
  exceptions on its own account. These become `Err(TableIndexOutOfRange)`
  (`tables[index]`) and `Err(EmptyRowList)` (`max()` over no rows).
- `HtmlExport` (`html_export.dfy`) holds the line list of `export_to_html`.
  `ExportLines` is a specification function. `BuildLines` is the loop that the
  source runs, proved equal to it. `ExportToHtml` joins the lines with
  newlines. Lemmas state the line count, the header lines, the odd/even class
  of each data row, the placement of every value, and that the document splits
  back into its lines.

Two behaviours of the code worth knowing:

- Only a table with no rows makes `max()` fail. `max` runs over one length
  per row, so rows without cells give a maximum of 0 and are kept. The failure
  happens whatever `ignore_colspan` is, because the maximum is computed before
  the flag is tested.
- `tables[index]` indexes a Python list, so it accepts negative indices down
  to `-len(tables)`, counting from the end. `SelectTable` models this.

## Model

| member | source | states |
|---|---|---|
| PyStr.IsSpace | rows/plugins/html.py:34 | the byte-string whitespace set is exactly space, tab, newline, vertical tab, form feed and carriage return; on ASCII the `unicode` set adds exactly the four separators `\x1c`..`\x1f` |
| PyStr.Find | rows/plugins/html.py:34 | `find` gives -1 exactly when the character is absent; otherwise an index holding it with no earlier occurrence |
| PyStr.RFind | rows/plugins/html.py:34 | `rfind` gives -1 exactly when the character is absent; otherwise an index holding it with no later occurrence |
| PyStr.Slice | rows/plugins/html.py:34 | a slice with in-range bounds is the plain subsequence; a start at or past a non-negative end gives the empty string |
| PyStr.Strip | rows/plugins/html.py:34 | `strip()` never lengthens its input; a non-empty result neither starts nor ends with whitespace |
| PyStr.StripTrims | rows/plugins/html.py:34 | for any bounds such that everything outside is whitespace and the first and last characters inside are not, `strip()` returns exactly the text between them |
| PyStr.StripIsTrim | rows/plugins/html.py:55 | such trim bounds always exist and `strip()` returns the text between them |
| PyStr.StripAllSpace | rows/plugins/html.py:34 | a string of whitespace alone strips to the empty string |
| PyStr.JoinLines | rows/plugins/html.py:87 | `'\n'.join` of n lines has the lines' total length plus n - 1 separators; of no lines, the empty string |
| PyStr.SplitLines | rows/plugins/html.py:87 | the inverse of the join (the plugin itself never splits): `split('\n')` gives at least one piece and no piece holds a newline |
| PyStr.SplitJoin | rows/plugins/html.py:87 | splitting the joined lines gives back the lines when none holds a newline |
| PyStr.JoinSplit | rows/plugins/html.py:87 | joining the pieces of a split gives back the string |
| HtmlImport.RawContent | rows/plugins/html.py:32-34 | the content never exceeds the element's markup and neither starts nor ends with ASCII whitespace |
| HtmlImport.InnerSlice | rows/plugins/html.py:34 | the slice is no longer than the markup; it is the text strictly between the first `>` and the last `<` when they come in that order, and empty when the last `<` does not come after the first `>` |
| HtmlImport.ContentBetweenTags | rows/plugins/html.py:33-34 | with both `>` and `<` present, the content is the stripped text strictly between the first `>` and the last `<`, or empty when the last `<` comes first |
| HtmlImport.ContentWithoutGt | rows/plugins/html.py:34 | with no `>`, `find` gives -1 and the content is the stripped text before the last `<` |
| HtmlImport.ContentWithoutTags | rows/plugins/html.py:34 | with neither character, `rfind` gives -1 and the content is the stripped markup minus its last character |
| HtmlImport.ContentWithoutLt | rows/plugins/html.py:34 | with a `>` but no `<`, the content is the stripped text after the first `>` minus the last character, or empty when that `>` is last |
| HtmlImport.PlainAsciiKeepsSeparator | rows/plugins/html.py:55 | an ASCII-only text content opening with one of `\x1c`..`\x1f` keeps that character at the head of its plain-mode value, which a `unicode` strip would have removed |
| HtmlImport.CellValue | rows/plugins/html.py:54-61 | a cell value is no longer than the markup (preserve mode) or the text content (plain mode) it comes from; a plain-mode value neither starts nor ends with whitespace of the text's own kind |
| HtmlImport.ShapeRow | rows/plugins/html.py:55-56 | one value per cell element of the row, in order, each the cell's value in the chosen mode |
| HtmlImport.ShapeRows | rows/plugins/html.py:53-61 | one row per row element and one value per cell element, in document order, each the cell's value in the chosen mode |
| HtmlImport.MaxLength | rows/plugins/html.py:63 | the maximum is at least every row's length and is the length of some row; it needs at least one row |
| HtmlImport.KeepWidth | rows/plugins/html.py:65 | every kept row has the requested length; no more rows come out than went in |
| HtmlImport.KeepWidthIsSubsequence | rows/plugins/html.py:65 | the filter keeps rows in their original relative order |
| HtmlImport.KeepWidthCounts | rows/plugins/html.py:65 | every row of the requested length is kept as often as it occurs, and no other row is kept |
| HtmlImport.KeepWidthUniform | rows/plugins/html.py:63-65 | when every row has the requested length the filter changes nothing |
| HtmlImport.SelectTable | rows/plugins/html.py:48-49 | the lookup succeeds exactly for indices from -len to len - 1 and yields the table at the index, counted from the end when negative |
| HtmlImport.ImportRows | rows/plugins/html.py:53-65 | fails with the empty-row error exactly when the table has no rows, whatever the flag; without `ignore_colspan` the shaped rows pass through unchanged; with it every kept row has the maximum row length |
| HtmlImport.ImportKeepsMaximalRows | rows/plugins/html.py:63-65 | with `ignore_colspan` the result is a subsequence of the shaped rows holding exactly the rows of maximal length, with their multiplicities |
| HtmlImport.ImportUniformIgnoresPolicy | rows/plugins/html.py:63-65 | when all row elements have the same number of cells, both colspan policies give the same result |
| HtmlImport.ImportFromHtml | rows/plugins/html.py:44-68 | an out-of-range table index fails before the rows are looked at; an in-range index succeeds exactly when the chosen table has rows, and otherwise fails with the empty-row error; success carries the provenance `imported_from: html` with the filename, and the rows that `ImportRows` gives for the chosen table |
| HtmlImport.ColspanExample | rows/plugins/html.py:63-65 | a two-cell row followed by a one-cell spanning row: dropping mismatched rows keeps the first row alone, keeping them passes both through |
| HtmlExport.CssClassAlternates | rows/plugins/html.py:77-78 | row 1 gets `odd`, and consecutive row numbers get different classes, alternating with period two |
| HtmlExport.ExportLines | rows/plugins/html.py:73-83 | the line list opens with the four prologue lines, closes with `  </tbody>`, `</table>` and an empty line, and has 12 + len(fields) lines besides the data rows' lines |
| HtmlExport.BuildLines | rows/plugins/html.py:72-83 | the loop over rows and cells builds exactly the specified line list |
| HtmlExport.ExportToHtml | rows/plugins/html.py:84-94 | the document is the line list joined with newlines; when no field or value holds a newline, it splits back into exactly that line list |
| HtmlExport.CellLinesLayout | rows/plugins/html.py:80-81 | a row's values give three lines each: `      <td>`, the value verbatim, `      </td>`, in value order |
| HtmlExport.BodyLinesLength | rows/plugins/html.py:77-82 | the data rows give the sum over rows of 3 * len(row) + 3 lines |
| HtmlExport.BodyLinesPrefix | rows/plugins/html.py:77-82 | the lines of the first k data rows are a prefix of the lines of all of them |
| HtmlExport.ExportLineCount | rows/plugins/html.py:73-83 | the line list has 4 + len(fields) + 5 + sum(3 * len(row) + 3) + 3 entries |
| HtmlExport.ExportHeaderAt | rows/plugins/html.py:73-75 | field i gives line 4 + i, `      <th>FIELD</th>`, in field order |
| HtmlExport.RowLinesLayout | rows/plugins/html.py:78-82 | a data row's lines are its opening line with class `odd` exactly when its number is odd, its value lines, `    </tr>` and an empty line |
| HtmlExport.BodyRowAt | rows/plugins/html.py:77-82 | within the body, data row k + 1 occupies the lines right after those of the k rows before it |
| HtmlExport.ExportRowSlice | rows/plugins/html.py:73-83 | in the whole document, data row k + 1 occupies the lines from 9 + len(fields) + the lines of the rows before it |
| HtmlExport.RowOpenInExport | rows/plugins/html.py:77-79 | the opening line of data row k + 1, counting from 1, carries class `odd` exactly when k + 1 is odd, else `even` |
| HtmlExport.ExportRowCells | rows/plugins/html.py:80-81 | every value of a data row appears verbatim, unescaped, on its own line between `      <td>` and `      </td>`, in row and cell order |
| HtmlExport.ExportRowClose | rows/plugins/html.py:82 | every data row closes with `    </tr>` and an empty line |
| HtmlExport.ThreeRowsAlternate | rows/plugins/html.py:77-79 | three data rows get the classes odd, even, odd |
| HtmlExport.ExportLinesNoNewline | rows/plugins/html.py:73-83 | when no field name or value holds a newline, no line of the list does |

## Left out

- HTML parsing with lxml (`document_fromstring`, the `//table`, `row_tag` and `column_tag` queries, `strip_tags` for `thead`/`tbody`, `text_content()`, `tostring`): these are foreign library calls. Their results are the inputs of the model: a table as rows of `CellElement`s.
- `HTMLParser.unescape` at the end of `_get_content`: an entity decoder from the standard library. `RawContent` stops just before it.
- CellValue: in preserve mode the value is taken before entity decoding, so `<td>a &amp; b</td>` gives `a &amp; b` where the plugin gives `a & b`; the same holds for `ShapeRow`, `ShapeRows`, `ImportRows` and `ImportFromHtml`, which use it.
- Reading and decoding the input bytes, and encoding the export lines to bytes: codec concerns. Lines and documents are strings of characters.
- `get_filename_and_fobj`, `create_table` and `serialize` from `rows.utils` and `rows.operations` are not part of this model. `ImportFromHtml` returns what it would hand to `create_table` (the rows and the metadata). Data rows for export are given as already serialised strings. The forwarded `*args`/`**kwargs` and `encoding` of the import are not modelled.
- Writing the export to a file or stream and flushing it: I/O. `ExportToHtml` models the branch with no sink, which returns the document.
- `tag_to_dict` and `tag_text`: thin wrappers over lxml with no logic of their own.
- Custom `row_tag`/`column_tag` selectors: they only change which elements the parser returns, and those elements are the model's input.
- Unicode whitespace for plain-mode cells follows Python 2.7's `unicode.isspace` table as listed in `PyStr.IsSpace`. Whether lxml returns a byte string is decided by the text alone (ASCII-only or not), as `TextWhitespace` states.
