/**
 * The text-producing parts of the table renderer (src/table.rs): fitting a
 * cell to a column width, the column widths of a table, the widths used when
 * the table needs no shrinking, delimited rows, and the lines
 * `to_table_writer` writes.
 */
module Tables {
  import opened Wrappers
  import opened Strings

  /** A column's padded width and the most characters of content shown in it. */
  datatype WidthFormat = WidthFormat(widthPad: nat, widthChars: nat)

  /** A column header, and whether its cells may be shortened with `...`. */
  datatype HeaderFormat = HeaderFormat(header: string, ellipsisable: bool)

  /** Spaces written after every column, the last one included. */
  const Gutter: nat := 2

  /** `to_writer_delimited`: the row's elements joined by the delimiter, then a newline. */
  function DelimitedRow(row: seq<string>, delimiter: string): (r: string)
    ensures |r| > 0 && r[|r| - 1] == '\n'
    ensures r[..|r| - 1] == Join(row, delimiter)
  {
    Join(row, delimiter) + "\n"
  }

  /**
   * With a one-character delimiter that no element contains, the elements
   * can be read back from a delimited row.
   */
  lemma DelimitedRowReadBack(row: seq<string>, d: char)
    requires |row| >= 1
    requires forall i :: 0 <= i < |row| ==> d !in row[i]
    ensures var r := DelimitedRow(row, [d]); Split(r[..|r| - 1], d) == row
  {
    SplitJoin(row, d);
  }

  /** The case in which `prepare_field` ends a cut-down value with `...`. */
  predicate Ellipsized(value: string, widths: WidthFormat) {
    |value| > widths.widthChars && widths.widthChars > 3 && |value| - widths.widthChars > 3
  }

  /**
   * `prepare_field`: a value no longer than `widthChars` is kept whole; a
   * longer one is cut to `widthChars` characters, the last three of them
   * `...` when both the width and the excess are more than three; the result
   * is then padded with spaces to at least `widthPad`.
   */
  function PrepareField(value: string, widths: WidthFormat): (r: string)
    ensures |r| == Max(Min(|value|, widths.widthChars), widths.widthPad)
    ensures forall i :: Min(|value|, widths.widthChars) <= i < |r| ==> r[i] == ' '
    ensures Ellipsized(value, widths) ==>
      && r[..widths.widthChars - 3] == value[..widths.widthChars - 3]
      && r[widths.widthChars - 3..widths.widthChars] == "..."
    ensures !Ellipsized(value, widths) ==>
      r[..Min(|value|, widths.widthChars)] == value[..Min(|value|, widths.widthChars)]
  {
    if |value| <= widths.widthChars then
      PadRight(value, widths.widthPad)
    else if widths.widthChars > 3 && |value| - widths.widthChars > 3 then
      var shown := value[..widths.widthChars - 3] + "...";
      var r := PadRight(shown, widths.widthPad);
      assert r[..widths.widthChars - 3] == shown[..widths.widthChars - 3];
      r
    else
      PadRight(value[..widths.widthChars], widths.widthPad)
  }

  /** When the padding is at least the content width, every cell is exactly `widthPad` long. */
  lemma PrepareFieldExactWidth(value: string, widths: WidthFormat)
    requires widths.widthPad >= widths.widthChars
    ensures |PrepareField(value, widths)| == widths.widthPad
  {
  }

  /** A value that fits is never cut: it is the value followed by spaces. */
  lemma PrepareFieldKeepsFittingValue(value: string, widths: WidthFormat)
    requires |value| <= widths.widthChars
    ensures PrepareField(value, widths) == PadRight(value, widths.widthPad)
    ensures PrepareField(value, widths) == value + Spaces(Max(|value|, widths.widthPad) - |value|)
  {
    var r := PrepareField(value, widths);
    assert r == r[..|value|] + r[|value|..];
  }

  /** All rows produced by the records, in order. */
  function Flatten(records: seq<seq<seq<string>>>): (rows: seq<seq<string>>)
    decreases |records|
  {
    if |records| == 0 then [] else records[0] + Flatten(records[1..])
  }

  /** No row has more elements than there are columns. */
  predicate RowsFit(rows: seq<seq<string>>, columns: nat) {
    forall j :: 0 <= j < |rows| ==> |rows[j]| <= columns
  }

  /**
   * The width of column `i`: the longest of its header and of the elements
   * rows hold in that column, folded over the rows in order.
   */
  function ColumnWidth(header: string, rows: seq<seq<string>>, i: nat): (r: nat)
    ensures r >= |header|
    ensures forall j :: 0 <= j < |rows| && i < |rows[j]| ==> r >= |rows[j][i]|
    ensures r == |header| || exists j :: 0 <= j < |rows| && i < |rows[j]| && r == |rows[j][i]|
    decreases |rows|
  {
    if |rows| == 0 then |header|
    else
      var n := |rows| - 1;
      var prefix := rows[..n];
      var before := ColumnWidth(header, prefix, i);
      var last := if i < |rows[n]| then |rows[n][i]| else 0;
      assert forall j :: 0 <= j < n ==> rows[j] == prefix[j];
      Max(before, last)
  }

  /** The column widths for the given header labels and rows. */
  function WidthsMax(headerLabels: seq<string>, rows: seq<seq<string>>): (w: seq<nat>)
    ensures |w| == |headerLabels|
    ensures forall i :: 0 <= i < |w| ==> w[i] >= |headerLabels[i]|
    ensures forall j, i :: 0 <= j < |rows| && 0 <= i < |w| && i < |rows[j]| ==> w[i] >= |rows[j][i]|
  {
    seq(|headerLabels|, i requires 0 <= i < |headerLabels| => ColumnWidth(headerLabels[i], rows, i))
  }

  /**
   * The width loop of `to_table_writer`: start every column at its header's
   * length, then widen it for each row's element in that column.
   */
  method ComputeWidthsMax(headerLabels: seq<string>, rows: seq<seq<string>>) returns (widthsMax: seq<nat>)
    requires RowsFit(rows, |headerLabels|)
    ensures widthsMax == WidthsMax(headerLabels, rows)
  {
    widthsMax := seq(|headerLabels|, _ => 0);
    var i := 0;
    while i < |headerLabels|
      invariant 0 <= i <= |headerLabels| && |widthsMax| == |headerLabels|
      invariant forall c :: 0 <= c < i ==> widthsMax[c] == |headerLabels[c]|
    {
      widthsMax := widthsMax[i := |headerLabels[i]|];
      i := i + 1;
    }
    assert rows[..0] == [];
    var k := 0;
    while k < |rows|
      invariant 0 <= k <= |rows| && |widthsMax| == |headerLabels|
      invariant forall c :: 0 <= c < |headerLabels| ==> widthsMax[c] == ColumnWidth(headerLabels[c], rows[..k], c)
    {
      var row := rows[k];
      assert rows[..k + 1][..k] == rows[..k] && rows[..k + 1][k] == row;
      var e := 0;
      while e < |row|
        invariant 0 <= e <= |row| && |widthsMax| == |headerLabels|
        invariant forall c :: 0 <= c < e ==> widthsMax[c] == ColumnWidth(headerLabels[c], rows[..k + 1], c)
        invariant forall c :: e <= c < |headerLabels| ==> widthsMax[c] == ColumnWidth(headerLabels[c], rows[..k], c)
      {
        widthsMax := widthsMax[e := Max(widthsMax[e], |row[e]|)];
        e := e + 1;
      }
      k := k + 1;
    }
    assert rows[..k] == rows;
  }

  function Sum(ws: seq<nat>): nat
    decreases |ws|
  {
    if |ws| == 0 then 0 else ws[0] + Sum(ws[1..])
  }

  /** Characters a table needs: every column plus a gutter after each one. */
  function TotalWidth(widthsMax: seq<nat>, gutter: nat): nat {
    Sum(widthsMax) + gutter * |widthsMax|
  }

  predicate AnyEllipsisable(ellipsisable: seq<bool>) {
    exists i :: 0 <= i < |ellipsisable| && ellipsisable[i]
  }

  /**
   * The case in which `optimize_widths` keeps every column at full width: no
   * column may be shortened, the table fits the terminal, or the terminal
   * width is unknown (0).
   */
  predicate KeepsFullWidths(widthsMax: seq<nat>, ellipsisable: seq<bool>, gutter: nat, terminal: nat) {
    !AnyEllipsisable(ellipsisable) || TotalWidth(widthsMax, gutter) <= terminal || terminal == 0
  }

  function SumPads(formats: seq<WidthFormat>): nat
    decreases |formats|
  {
    if |formats| == 0 then 0 else formats[0].widthPad + SumPads(formats[1..])
  }

  /**
   * `optimize_widths`, given the terminal width (0 when it cannot be read).
   * When the table must shrink the result is `None`: the proportional
   * shrinking is not part of this model.
   */
  function OptimizeWidths(widthsMax: seq<nat>, ellipsisable: seq<bool>, gutter: nat, terminal: nat): (r: Option<seq<WidthFormat>>)
    ensures r.Some? <==> KeepsFullWidths(widthsMax, ellipsisable, gutter, terminal)
    ensures r.Some? ==> |r.value| == |widthsMax|
    ensures r.Some? ==> forall i :: 0 <= i < |widthsMax| ==>
      r.value[i].widthChars == widthsMax[i] && r.value[i].widthPad == widthsMax[i] + gutter
  {
    if KeepsFullWidths(widthsMax, ellipsisable, gutter, terminal) then
      Some(seq(|widthsMax|, i requires 0 <= i < |widthsMax| => WidthFormat(widthsMax[i] + gutter, widthsMax[i])))
    else
      None
  }

  /** Full-width columns take up exactly the total width, so a table that may shrink fits the terminal. */
  lemma {:induction false} FullWidthsFill(formats: seq<WidthFormat>, widthsMax: seq<nat>, gutter: nat)
    requires |formats| == |widthsMax|
    requires forall i :: 0 <= i < |widthsMax| ==> formats[i].widthPad == widthsMax[i] + gutter
    ensures SumPads(formats) == TotalWidth(widthsMax, gutter)
    decreases |formats|
  {
    if |formats| > 0 {
      FullWidthsFill(formats[1..], widthsMax[1..], gutter);
    }
  }

  lemma FullWidthsFitTerminal(widthsMax: seq<nat>, ellipsisable: seq<bool>, gutter: nat, terminal: nat)
    requires OptimizeWidths(widthsMax, ellipsisable, gutter, terminal).Some?
    requires AnyEllipsisable(ellipsisable) && terminal > 0
    ensures SumPads(OptimizeWidths(widthsMax, ellipsisable, gutter, terminal).value) <= terminal
  {
    FullWidthsFill(OptimizeWidths(widthsMax, ellipsisable, gutter, terminal).value, widthsMax, gutter);
  }

  /** Every column pads at least as wide as it shows, as the widths `optimize_widths` keeps do. */
  predicate PadsCoverContent(widths: seq<WidthFormat>) {
    forall k :: 0 <= k < |widths| ==> widths[k].widthPad >= widths[k].widthChars
  }

  /**
   * The cells of one row, each fitted to its column, in column order. A
   * full row whose every column pads at least as wide as it shows is as long
   * as the padded widths together.
   */
  function FormatCells(row: seq<string>, widths: seq<WidthFormat>): (r: string)
    requires |row| <= |widths|
    ensures |row| == 0 ==> r == ""
    ensures |row| == |widths| && PadsCoverContent(widths) ==> |r| == SumPads(widths)
    decreases |row|
  {
    if |row| == 0 then "" else PrepareField(row[0], widths[0]) + FormatCells(row[1..], widths[1..])
  }

  /** The fitted cells of a row, one per element, in column order. */
  function Cells(row: seq<string>, widths: seq<WidthFormat>): (cells: seq<string>)
    requires |row| <= |widths|
    ensures |cells| == |row|
  {
    seq(|row|, k requires 0 <= k < |row| => PrepareField(row[k], widths[k]))
  }

  /** `FormatCells` writes the fitted cells one after another. */
  lemma {:induction false} FormatCellsConcat(row: seq<string>, widths: seq<WidthFormat>)
    requires |row| <= |widths|
    ensures FormatCells(row, widths) == Concat(Cells(row, widths))
    decreases |row|
  {
    if |row| > 0 {
      FormatCellsConcat(row[1..], widths[1..]);
      assert Cells(row, widths)[1..] == Cells(row[1..], widths[1..]);
    }
  }

  /** When every column pads at least as wide as it shows, the first `i` cells take up the first `i` padded widths. */
  lemma {:induction false} CellsLength(row: seq<string>, widths: seq<WidthFormat>, i: nat)
    requires |row| <= |widths| && PadsCoverContent(widths) && i <= |row|
    ensures TotalLength(Cells(row, widths)[..i]) == SumPads(widths[..i])
    decreases i
  {
    if i > 0 {
      assert PadsCoverContent(widths[1..]);
      CellsLength(row[1..], widths[1..], i - 1);
      assert Cells(row, widths)[..i][1..] == Cells(row[1..], widths[1..])[..i - 1];
      assert widths[..i][1..] == widths[1..][..i - 1];
    }
  }

  /**
   * Where element `i` sits in a row: when every column pads at least as
   * wide as it shows, its fitted cell fills the stretch that starts after
   * the padded widths of the columns before it and is `widthPad` long.
   */
  lemma FormatCellsAt(row: seq<string>, widths: seq<WidthFormat>, i: nat)
    requires |row| <= |widths| && PadsCoverContent(widths) && i < |row|
    ensures SumPads(widths[..i]) + widths[i].widthPad <= |FormatCells(row, widths)|
    ensures FormatCells(row, widths)[SumPads(widths[..i])..SumPads(widths[..i]) + widths[i].widthPad]
      == PrepareField(row[i], widths[i])
  {
    var cells := Cells(row, widths);
    FormatCellsConcat(row, widths);
    CellsLength(row, widths, i);
    ConcatAt(cells, i);
  }

  /** When every column pads at least as wide as it shows, a row ends after its last element's cell. */
  lemma FormatCellsLength(row: seq<string>, widths: seq<WidthFormat>)
    requires |row| <= |widths| && PadsCoverContent(widths)
    ensures |FormatCells(row, widths)| == SumPads(widths[..|row|])
  {
    FormatCellsConcat(row, widths);
    CellsLength(row, widths, |row|);
    assert Cells(row, widths)[..|row|] == Cells(row, widths);
  }

  /** Every element of a row, in column order, is its fitted cell at its column's place. */
  lemma FormatCellsLayout(row: seq<string>, widths: seq<WidthFormat>)
    requires |row| <= |widths| && PadsCoverContent(widths)
    ensures |FormatCells(row, widths)| == SumPads(widths[..|row|])
    ensures forall i :: 0 <= i < |row| ==>
      && SumPads(widths[..i]) + widths[i].widthPad <= |FormatCells(row, widths)|
      && FormatCells(row, widths)[SumPads(widths[..i])..SumPads(widths[..i]) + widths[i].widthPad]
           == PrepareField(row[i], widths[i])
  {
    FormatCellsLength(row, widths);
    forall i | 0 <= i < |row|
      ensures SumPads(widths[..i]) + widths[i].widthPad <= |FormatCells(row, widths)|
      ensures FormatCells(row, widths)[SumPads(widths[..i])..SumPads(widths[..i]) + widths[i].widthPad]
        == PrepareField(row[i], widths[i])
    {
      FormatCellsAt(row, widths, i);
    }
  }

  /** The header texts, in column order. */
  function HeaderLabels(headers: seq<HeaderFormat>): (labels: seq<string>)
    ensures |labels| == |headers|
  {
    seq(|headers|, i requires 0 <= i < |headers| => headers[i].header)
  }

  function Ellipsisable(headers: seq<HeaderFormat>): (flags: seq<bool>)
    ensures |flags| == |headers|
  {
    seq(|headers|, i requires 0 <= i < |headers| => headers[i].ellipsisable)
  }

  /**
   * `to_table_writer`: the lines it writes, in order. `records[k]` is what
   * the k-th record's `to_rows` gives, `delimiter` selects the delimited
   * form, and `terminal` is the terminal width (0 when unknown). `None`
   * stands for the case the column widths must shrink.
   */
  function ToTableWriter(headers: seq<HeaderFormat>, records: seq<seq<seq<string>>>, delimiter: Option<string>, terminal: nat): (lines: Option<seq<string>>)
    requires |records| > 0 && |headers| > 0 && delimiter.None? ==> RowsFit(Flatten(records), |headers|)
    ensures |records| == 0 || |headers| == 0 ==> lines == Some([])
    ensures lines.None? <==>
      && |records| > 0 && |headers| > 0 && delimiter.None?
      && !KeepsFullWidths(WidthsMax(HeaderLabels(headers), Flatten(records)), Ellipsisable(headers), Gutter, terminal)
    ensures lines.Some? && |records| > 0 && |headers| > 0 ==>
      && |lines.value| == 1 + |Flatten(records)|
      && forall j :: 0 <= j < |lines.value| ==> |lines.value[j]| > 0 && lines.value[j][|lines.value[j]| - 1] == '\n'
    ensures delimiter.Some? && lines.Some? && |records| > 0 && |headers| > 0 ==>
      && lines.value[0] == DelimitedRow(HeaderLabels(headers), delimiter.value)
      && forall j :: 0 <= j < |Flatten(records)| ==> lines.value[j + 1] == DelimitedRow(Flatten(records)[j], delimiter.value)
    ensures delimiter.None? && lines.Some? && |records| > 0 && |headers| > 0 ==>
      var widths := OptimizeWidths(WidthsMax(HeaderLabels(headers), Flatten(records)), Ellipsisable(headers), Gutter, terminal).value;
      && lines.value[0] == FormatCells(HeaderLabels(headers), widths) + "\n"
      && forall j :: 0 <= j < |Flatten(records)| ==> lines.value[j + 1] == FormatCells(Flatten(records)[j], widths) + "\n"
  {
    if |records| == 0 || |headers| == 0 then
      Some([])
    else
      var labels := HeaderLabels(headers);
      var rows := Flatten(records);
      match delimiter
      case Some(d) => Some(DelimitedLines(labels, rows, d))
      case None =>
        var widthsMax := WidthsMax(labels, rows);
        match OptimizeWidths(widthsMax, Ellipsisable(headers), Gutter, terminal)
        case None => None
        case Some(widths) => Some(TerminalLines(labels, rows, widths))
  }

  /** The delimited header line, then one delimited line per row. */
  function DelimitedLines(labels: seq<string>, rows: seq<seq<string>>, d: string): (lines: seq<string>)
    ensures |lines| == 1 + |rows|
    ensures forall j :: 0 <= j < |lines| ==> |lines[j]| > 0 && lines[j][|lines[j]| - 1] == '\n'
    ensures lines[0] == DelimitedRow(labels, d)
    ensures forall j :: 0 <= j < |rows| ==> lines[j + 1] == DelimitedRow(rows[j], d)
  {
    var body := seq(|rows|, j requires 0 <= j < |rows| => DelimitedRow(rows[j], d));
    var lines := [DelimitedRow(labels, d)] + body;
    assert forall j :: 0 <= j < |rows| ==> lines[j + 1] == body[j];
    lines
  }

  /** The header cells on one line, then the cells of each row on a line of its own. */
  function TerminalLines(labels: seq<string>, rows: seq<seq<string>>, widths: seq<WidthFormat>): (lines: seq<string>)
    requires |labels| <= |widths| && RowsFit(rows, |widths|)
    ensures |lines| == 1 + |rows|
    ensures forall j :: 0 <= j < |lines| ==> |lines[j]| > 0 && lines[j][|lines[j]| - 1] == '\n'
    ensures lines[0] == FormatCells(labels, widths) + "\n"
    ensures forall j :: 0 <= j < |rows| ==> lines[j + 1] == FormatCells(rows[j], widths) + "\n"
  {
    var body := seq(|rows|, j requires 0 <= j < |rows| => FormatCells(rows[j], widths) + "\n");
    var lines := [FormatCells(labels, widths) + "\n"] + body;
    assert forall j :: 0 <= j < |rows| ==> lines[j + 1] == body[j];
    lines
  }

  /**
   * When the terminal table keeps full widths, no cell is ever cut: every
   * header and element is written whole and padded to its column width plus
   * the gutter, and the header line and every full row are exactly the
   * total width long.
   */
  lemma TerminalTableKeepsCells(headers: seq<HeaderFormat>, records: seq<seq<seq<string>>>, terminal: nat)
    requires |records| > 0 && |headers| > 0
    requires RowsFit(Flatten(records), |headers|)
    requires KeepsFullWidths(WidthsMax(HeaderLabels(headers), Flatten(records)), Ellipsisable(headers), Gutter, terminal)
    ensures var lines := ToTableWriter(headers, records, None, terminal).value;
            var widthsMax := WidthsMax(HeaderLabels(headers), Flatten(records));
            && |lines[0]| == TotalWidth(widthsMax, Gutter) + 1
            && forall j :: 0 <= j < |Flatten(records)| && |Flatten(records)[j]| == |headers| ==>
                 |lines[j + 1]| == TotalWidth(widthsMax, Gutter) + 1
    ensures var widths := OptimizeWidths(WidthsMax(HeaderLabels(headers), Flatten(records)), Ellipsisable(headers), Gutter, terminal).value;
            var rows := Flatten(records);
            && (forall i :: 0 <= i < |headers| ==>
                 PrepareField(headers[i].header, widths[i]) == PadRight(headers[i].header, widths[i].widthPad))
            && (forall j, i :: 0 <= j < |rows| && 0 <= i < |rows[j]| ==>
                 PrepareField(rows[j][i], widths[i]) == PadRight(rows[j][i], widths[i].widthPad))
  {
    var labels := HeaderLabels(headers);
    var rows := Flatten(records);
    var widthsMax := WidthsMax(labels, rows);
    var widths := OptimizeWidths(widthsMax, Ellipsisable(headers), Gutter, terminal).value;
    FullWidthsFill(widths, widthsMax, Gutter);
    assert PadsCoverContent(widths);
    assert |FormatCells(labels, widths)| == TotalWidth(widthsMax, Gutter);
    forall i | 0 <= i < |headers|
      ensures PrepareField(headers[i].header, widths[i]) == PadRight(headers[i].header, widths[i].widthPad)
    {
      assert labels[i] == headers[i].header;
      PrepareFieldKeepsFittingValue(headers[i].header, widths[i]);
    }
    forall j, i | 0 <= j < |rows| && 0 <= i < |rows[j]|
      ensures PrepareField(rows[j][i], widths[i]) == PadRight(rows[j][i], widths[i].widthPad)
    {
      PrepareFieldKeepsFittingValue(rows[j][i], widths[i]);
    }
  }

  /** The widths `optimize_widths` gives when it keeps every column at full width. */
  predicate FullWidths(widths: seq<WidthFormat>, widthsMax: seq<nat>) {
    && |widths| == |widthsMax|
    && forall k :: 0 <= k < |widths| ==> widths[k] == WidthFormat(widthsMax[k] + Gutter, widthsMax[k])
  }

  /**
   * Column `i` of a full-width line shows `value` whole: padded to the
   * column's width plus the gutter, right after the full width and gutter
   * of every column before it.
   */
  predicate CellShown(line: string, widthsMax: seq<nat>, i: nat, value: string)
    requires i < |widthsMax|
  {
    var lo := TotalWidth(widthsMax[..i], Gutter);
    && lo + widthsMax[i] + Gutter <= |line|
    && line[lo..lo + widthsMax[i] + Gutter] == PadRight(value, widthsMax[i] + Gutter)
  }

  /**
   * Under full widths, an element that fits its column appears whole in its
   * row's line: padded to its column width plus the gutter, starting after
   * the full width and gutter of every column before it.
   */
  lemma FullWidthCellAt(row: seq<string>, widthsMax: seq<nat>, widths: seq<WidthFormat>, i: nat)
    requires FullWidths(widths, widthsMax) && |row| <= |widths| && i < |row|
    requires |row[i]| <= widthsMax[i]
    ensures CellShown(FormatCells(row, widths) + "\n", widthsMax, i, row[i])
  {
    assert PadsCoverContent(widths);
    FormatCellsAt(row, widths, i);
    FullWidthsFill(widths[..i], widthsMax[..i], Gutter);
    PrepareFieldKeepsFittingValue(row[i], widths[i]);
    var lo := TotalWidth(widthsMax[..i], Gutter);
    SliceWithin(FormatCells(row, widths), "\n", lo, lo + widthsMax[i] + Gutter);
  }

  /**
   * When the terminal table keeps full widths, the header line shows header
   * `i` whole, padded to its column width plus the gutter, right after the
   * full width and gutter of every column before it.
   */
  lemma TerminalHeaderCell(headers: seq<HeaderFormat>, records: seq<seq<seq<string>>>, terminal: nat, i: nat)
    requires |records| > 0 && i < |headers|
    requires RowsFit(Flatten(records), |headers|)
    requires KeepsFullWidths(WidthsMax(HeaderLabels(headers), Flatten(records)), Ellipsisable(headers), Gutter, terminal)
    ensures CellShown(ToTableWriter(headers, records, None, terminal).value[0],
                      WidthsMax(HeaderLabels(headers), Flatten(records)), i, HeaderLabels(headers)[i])
  {
    var labels := HeaderLabels(headers);
    var widthsMax := WidthsMax(labels, Flatten(records));
    var widths := OptimizeWidths(widthsMax, Ellipsisable(headers), Gutter, terminal).value;
    assert FullWidths(widths, widthsMax);
    FullWidthCellAt(labels, widthsMax, widths, i);
  }

  /**
   * When the terminal table keeps full widths, the line of row `j` shows its
   * element `i` whole, padded to its column width plus the gutter, right
   * after the full width and gutter of every column before it.
   */
  lemma TerminalRowCell(headers: seq<HeaderFormat>, records: seq<seq<seq<string>>>, terminal: nat, j: nat, i: nat)
    requires |records| > 0 && |headers| > 0
    requires RowsFit(Flatten(records), |headers|)
    requires KeepsFullWidths(WidthsMax(HeaderLabels(headers), Flatten(records)), Ellipsisable(headers), Gutter, terminal)
    requires j < |Flatten(records)| && i < |Flatten(records)[j]|
    ensures CellShown(ToTableWriter(headers, records, None, terminal).value[j + 1],
                      WidthsMax(HeaderLabels(headers), Flatten(records)), i, Flatten(records)[j][i])
  {
    var rows := Flatten(records);
    var widthsMax := WidthsMax(HeaderLabels(headers), rows);
    var widths := OptimizeWidths(widthsMax, Ellipsisable(headers), Gutter, terminal).value;
    assert FullWidths(widths, widthsMax);
    FullWidthCellAt(rows[j], widthsMax, widths, i);
  }
}
