/**
 * The line-table serialiser at the end of `Renderer::render`: a fixed
 * header, one `<tr>` row per decorated line in order, and a fixed footer.
 */
module Table {
  import Text
  import opened Wrappers

  /** The header `writeln!` writes first (the raw string and its newline). */
  const Header: string :=
    "\n<div class=\"tsc-bg\">\n    <table class=\"tsc-table\">\n        <tbody>\n"

  /** The footer `writeln!` writes last. */
  const Footer: string := "        </tbody>\n    </table>\n</div>\n"

  const RowOpen: string := "           <tr><td class=line-number>"
  const CellBreak: string := "</td><td class=tsc-line>"
  const RowClose: string := "</td></tr>\n"

  /** Row `i`: its 0-based index in the first cell and `content` in the second. */
  function Row(i: nat, content: string): string {
    RowOpen + Text.Decimal(i) + CellBreak + content + RowClose
  }

  /** The rows for `lines`, in the order `enumerate` visits them. */
  function Rows(lines: seq<string>): seq<string> {
    if lines == [] then []
    else Rows(lines[..|lines| - 1]) + [Row(|lines| - 1, Text.TrimEnd(lines[|lines| - 1]))]
  }

  /** One row per line, in line order; row `i` holds `i` and the trimmed line `i`. */
  lemma {:induction false} RowsSpec(lines: seq<string>)
    ensures |Rows(lines)| == |lines|
    ensures forall i :: 0 <= i < |lines| ==> Rows(lines)[i] == Row(i, Text.TrimEnd(lines[i]))
  {
    if lines != [] {
      var init := lines[..|lines| - 1];
      RowsSpec(init);
      assert Rows(lines) == Rows(init) + [Row(|init|, Text.TrimEnd(lines[|init|]))];
      forall i | 0 <= i < |init|
        ensures Rows(lines)[i] == Row(i, Text.TrimEnd(lines[i]))
      {
        assert Rows(lines)[i] == Rows(init)[i];
        assert init[i] == lines[i];
      }
    }
  }

  /** The whole output for `lines`. */
  function TableHtml(lines: seq<string>): string {
    Header + Text.Concat(Rows(lines)) + Footer
  }

  /** Writing one more row after `rows` extends their text by that row. */
  lemma AppendRow(prefix: string, rows: seq<string>, row: string, out: string)
    requires out == prefix + Text.Concat(rows)
    ensures out + row == prefix + Text.Concat(rows + [row])
  {
    Text.ConcatAppend(rows, row);
  }

  /** The `for` loop over `self.renderer.lines().enumerate()`, with header and footer. */
  method WriteTable(lines: seq<string>) returns (out: string)
    ensures out == TableHtml(lines)
  {
    out := Header;
    var i := 0;
    ghost var done: seq<string> := [];
    while i < |lines|
      invariant 0 <= i <= |lines|
      invariant done == lines[..i]
      invariant out == Header + Text.Concat(Rows(done))
    {
      var row := Row(i, Text.TrimEnd(lines[i]));
      TableAppend(done, lines[i]);
      AppendRow(Header, Rows(done), row, out);
      out := out + row;
      done := done + [lines[i]];
      i := i + 1;
    }
    assert done == lines;
    out := out + Footer;
  }

  /**
   * Row `i` of the output sits after the header and the rows before it, and
   * holds `i` and the trimmed line `i`; the footer closes the table.
   */
  lemma RowAt(lines: seq<string>, i: nat)
    requires i < |lines|
    ensures |Rows(lines)| == |lines|
    ensures TableHtml(lines)
         == Header
          + (Text.Concat(Rows(lines)[..i]) + (Row(i, Text.TrimEnd(lines[i])) + Text.Concat(Rows(lines)[i + 1..])))
          + Footer
  {
    RowsSpec(lines);
    Text.ConcatAt(Rows(lines), i);
  }

  /** The two cells of a row as a reader of the table sees them. */
  datatype Cells = Cells(lineNumber: nat, content: string)

  /**
   * Reads a row back: the `line-number` cell is the digit run after the
   * row's opening, the `tsc-line` cell is whatever lies between the cell
   * break and the row's closing.
   */
  function ParseRow(row: string): Option<Cells> {
    if |row| < |RowOpen| || row[..|RowOpen|] != RowOpen then None
    else
      var rest := row[|RowOpen|..];
      var n := Text.DigitRun(rest);
      if n == 0 || |rest| < n + |CellBreak| + |RowClose|
         || rest[n..n + |CellBreak|] != CellBreak
         || rest[|rest| - |RowClose|..] != RowClose
      then None
      else Some(Cells(Text.DecimalValue(rest[..n]), rest[n + |CellBreak|..|rest| - |RowClose|]))
  }

  /** Where the five pieces of a row lie once its opening is cut off. */
  lemma RowPieces(open: string, d: string, brk: string, c: string, close: string)
    ensures (open + d + brk + c + close)[..|open|] == open
    ensures (open + d + brk + c + close)[|open|..] == d + (brk + c + close)
    ensures (d + (brk + c + close))[..|d|] == d
    ensures (d + (brk + c + close))[|d|..|d| + |brk|] == brk
    ensures (d + (brk + c + close))[|d + (brk + c + close)| - |close|..] == close
    ensures (d + (brk + c + close))[|d| + |brk|..|d + (brk + c + close)| - |close|] == c
  {
    var rest := d + (brk + c + close);
    assert rest[|d| + |brk|..|rest| - |close|] == c;
  }

  /** Every row reads back as its line number and its content. */
  lemma RowRoundTrip(i: nat, content: string)
    ensures ParseRow(Row(i, content)) == Some(Cells(i, content))
  {
    var d := Text.Decimal(i);
    Text.DecimalRoundTrip(i);
    RowPieces(RowOpen, d, CellBreak, content, RowClose);
    Text.DigitRunOf(d, CellBreak + content + RowClose);
  }

  /**
   * Read back cell by cell, the table has one row per line, in line order,
   * and row `i` holds the line number `i` and line `i` without its
   * trailing whitespace.
   */
  lemma RowsReadBack(lines: seq<string>)
    ensures |Rows(lines)| == |lines|
    ensures forall i :: 0 <= i < |lines| ==>
              ParseRow(Rows(lines)[i]) == Some(Cells(i, Text.TrimEnd(lines[i])))
  {
    RowsSpec(lines);
    forall i | 0 <= i < |lines|
      ensures ParseRow(Rows(lines)[i]) == Some(Cells(i, Text.TrimEnd(lines[i])))
    {
      RowRoundTrip(i, Text.TrimEnd(lines[i]));
    }
  }

  /** One more decorated line adds exactly one row, numbered after the others. */
  lemma {:induction false} TableAppend(lines: seq<string>, line: string)
    ensures Rows(lines + [line]) == Rows(lines) + [Row(|lines|, Text.TrimEnd(line))]
  {
    assert (lines + [line])[..|lines|] == lines;
  }

  /** More lines always make a strictly longer table. */
  lemma {:induction false} TableGrows(lines: seq<string>, more: seq<string>)
    requires more != []
    ensures |TableHtml(lines)| < |TableHtml(lines + more)|
  {
    var init := more[..|more| - 1];
    var last := more[|more| - 1];
    assert lines + more == (lines + init) + [last];
    var row := Row(|lines + init|, Text.TrimEnd(last));
    TableAppend(lines + init, last);
    Text.ConcatAppend(Rows(lines + init), row);
    assert |row| >= |RowOpen| > 0;
    if init != [] {
      TableGrows(lines, init);
    } else {
      assert lines + init == lines;
    }
  }
}
