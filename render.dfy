/**
 * The text table `SMART_Log.print_table` prints: a title line, a header row,
 * one row per kept record, then an empty line. Every column is as wide as
 * its widest cell, so every row of the table has the same length.
 *
 * The functions here say what is printed; the loops that print it are in
 * `SmartLogs.SmartLog.PrintTable`.
 */
module Rendering {
  import opened Wrappers
  import opened Numbers
  import opened Timestamps
  import opened Records
  import opened Devices

  /** Text of the first cell of the header row. */
  const HeaderStamp: string := "Timestamp, attr(s):"
  /** Header of every delta column. */
  const DeltaMark: string := "\U{0394}"
  /** How a zero delta is shown. */
  const NoChange: string := "\U{2014}"
  /** Printed instead of a table when no record was kept. */
  const NoAttributes: string := "  no S.M.A.R.T attributs logged\n"

  // ---------------------------------------------------------------------
  // Cells
  // ---------------------------------------------------------------------

  /** `format_delta`: a dash for no change, otherwise the signed change. */
  function FormatDelta(d: int): (s: string)
    ensures s == NoChange <==> d == 0
    ensures d != 0 ==> ParseInt(s) == Some(d)
    ensures d > 0 ==> s[0] == '+'
    ensures d < 0 ==> s[0] == '-'
    ensures d != 0 ==> |s| >= 2 && AllDigits(s[1..]) && s[1] != '0'
  {
    if d == 0 then NoChange
    else
      var vs := IntToString(d);
      IntToStringRoundTrip(d);
      assert vs[0] != NoChange[0];
      if d > 0 then
        PlusSignRoundTrip(d);
        "+" + vs
      else vs
  }

  /** An explicit `+` before the digits reads back as the same number. */
  lemma PlusSignRoundTrip(n: nat)
    ensures ParseInt("+" + NatToString(n)) == Some(n)
  {
    var s := "+" + NatToString(n);
    StripNoSpaceEnds(s);
    assert s[1..] == NatToString(n);
  }

  function Spaces(n: nat): (s: string)
    ensures |s| == n && forall i :: 0 <= i < n ==> s[i] == ' '
  {
    seq(n, _ => ' ')
  }

  /** `s.ljust(width)`: pad on the right; never cut. */
  function LJust(s: string, width: nat): (r: string)
    ensures |s| <= width ==> |r| == width
    ensures |s| <= |r| && r[..|s|] == s
    ensures |s| <= width ==> forall i :: |s| <= i < width ==> r[i] == ' '
    ensures |s| >= width ==> r == s
  {
    if |s| >= width then s else s + Spaces(width - |s|)
  }

  /** `s.rjust(width)`: pad on the left; never cut. */
  function RJust(s: string, width: nat): (r: string)
    ensures |s| <= width ==> |r| == width
    ensures |s| <= width ==> r[width - |s|..] == s
    ensures |s| <= width ==> forall i :: 0 <= i < width - |s| ==> r[i] == ' '
    ensures |s| >= width ==> r == s
  {
    if |s| >= width then s else Spaces(width - |s|) + s
  }

  /** A value and its delta: the two sub-columns of one attribute. */
  datatype Pair = Pair(value: string, delta: string)

  /** A row of the table: the first cell, then one pair per attribute column. */
  datatype TableRow = TableRow(stamp: string, cells: seq<Pair>)

  datatype ColWidth = ColWidth(value: nat, delta: nat)

  /** `colwidths`: the width of the first column and of each pair of sub-columns. */
  datatype Widths = Widths(stamp: nat, cols: seq<ColWidth>)

  // ---------------------------------------------------------------------
  // The columns
  // ---------------------------------------------------------------------

  /** `attrids`: every attribute that appears in some record of the log. */
  function Columns(log: seq<LogRecord>): (ids: set<int>)
    ensures forall i, a :: 0 <= i < |log| && a in log[i].attrs ==> a in ids
    ensures forall a :: a in ids ==> exists i :: 0 <= i < |log| && a in log[i].attrs
  {
    if log == [] then {}
    else
      var ids := Columns(log[..|log| - 1]);
      assert forall i :: 0 <= i < |log| - 1 ==> log[..|log| - 1][i] == log[i];
      ids + log[|log| - 1].attrs.Keys
  }

  predicate IsMin(s: set<int>, m: int)
  {
    m in s && forall x :: x in s ==> m <= x
  }

  /** The least element of a non-empty set of attribute IDs. */
  function SetMin(s: set<int>): (m: int)
    requires s != {}
    ensures IsMin(s, m)
  {
    SetMinExists(s);
    var m :| IsMin(s, m);
    m
  }

  lemma MinOfAddition(rest: set<int>, m: int, y: int)
    requires IsMin(rest, m)
    ensures IsMin(rest + {y}, if y < m then y else m)
  {
  }

  /** A set that is not empty has a member. */
  lemma HasMember(s: set<int>)
    requires s != {}
    ensures exists x :: x in s
  {
    if forall x :: x !in s {
      assert false;
    }
  }

  lemma {:induction false} SetMinExists(s: set<int>)
    requires s != {}
    ensures exists m :: IsMin(s, m)
    decreases |s|
  {
    HasMember(s);
    var y :| y in s;
    var rest := s - {y};
    if rest == {} {
      assert s == {y};
      assert IsMin(s, y);
    } else {
      SetMinExists(rest);
      var m :| IsMin(rest, m);
      MinOfAddition(rest, m, y);
      assert rest + {y} == s;
    }
  }

  /** `sorted(attrids)`: the IDs in increasing order, each once. */
  function SortedIds(s: set<int>): (r: seq<int>)
    ensures |r| == |s|
    ensures forall x :: x in r <==> x in s
    ensures forall i, j :: 0 <= i < j < |r| ==> r[i] < r[j]
    decreases |s|
  {
    if s == {} then []
    else
      var m := SetMin(s);
      [m] + SortedIds(s - {m})
  }

  /** `header`: the attribute columns of the table, left to right. */
  function Header(log: seq<LogRecord>): seq<int>
  {
    SortedIds(Columns(log))
  }

  /** The first row: a title cell, then each attribute ID over a delta mark. */
  function HeaderRow(header: seq<int>): (row: TableRow)
    ensures row.stamp == HeaderStamp && |row.cells| == |header|
    ensures forall j :: 0 <= j < |header| ==> row.cells[j].delta == DeltaMark && ParseInt(row.cells[j].value) == Some(header[j])
  {
    IntToStringRoundTripAll();
    TableRow(HeaderStamp, seq(|header|, j requires 0 <= j < |header| => Pair(IntToString(header[j]), DeltaMark)))
  }

  /** The cell of one attribute of a record: its raw value and the change in it. */
  function AttrCell(a: SmartAttr): Pair
  {
    Pair(IntToString(a.raw), FormatDelta(a.rawdelta))
  }

  /** An attribute's cell reads back as its raw value, and as its raw delta unless that is zero. */
  lemma AttrCellShows(a: SmartAttr)
    ensures ParseInt(AttrCell(a).value) == Some(a.raw)
    ensures AttrCell(a).delta == NoChange <==> a.rawdelta == 0
    ensures a.rawdelta != 0 ==> ParseInt(AttrCell(a).delta) == Some(a.rawdelta)
  {
    IntToStringRoundTrip(a.raw);
  }

  /** The cells of a record's row; `None` for an attribute the record lacks. */
  function DataCells(rec: LogRecord, header: seq<int>): (cells: seq<Option<Pair>>)
    ensures |cells| == |header|
    ensures Complete(cells) <==> forall j :: 0 <= j < |header| ==> header[j] in rec.attrs
  {
    var cells := seq(|header|, j requires 0 <= j < |header| =>
      if header[j] in rec.attrs then Some(AttrCell(rec.attrs[header[j]])) else None);
    assert forall j :: 0 <= j < |header| ==> (cells[j].Some? <==> header[j] in rec.attrs);
    cells
  }

  /**
   * Column `j` of a record's row holds the cell of attribute `header[j]`
   * when the record has it: its raw value, and its raw delta or the dash.
   */
  lemma DataCellShows(rec: LogRecord, header: seq<int>, j: nat)
    requires j < |header|
    ensures var cell := DataCells(rec, header)[j];
      && (cell.Some? <==> header[j] in rec.attrs)
      && (cell.Some? ==>
        && ParseInt(cell.value.value) == Some(rec.attrs[header[j]].raw)
        && (cell.value.delta == NoChange <==> rec.attrs[header[j]].rawdelta == 0)
        && (rec.attrs[header[j]].rawdelta != 0 ==> ParseInt(cell.value.delta) == Some(rec.attrs[header[j]].rawdelta)))
  {
    if header[j] in rec.attrs {
      AttrCellShows(rec.attrs[header[j]]);
    }
  }

  predicate Complete(cells: seq<Option<Pair>>)
  {
    forall j :: 0 <= j < |cells| ==> cells[j].Some?
  }

  function Unwrap(cells: seq<Option<Pair>>): (r: seq<Pair>)
    requires Complete(cells)
    ensures |r| == |cells| && forall j :: 0 <= j < |r| ==> Some(r[j]) == cells[j]
  {
    seq(|cells|, j requires 0 <= j < |cells| => cells[j].value)
  }

  /** The first record, if any, that lacks one of the table's columns. */
  function FirstIncomplete(log: seq<LogRecord>, header: seq<int>): (r: Option<nat>)
    ensures r.Some? ==> r.value < |log| && !Complete(DataCells(log[r.value], header))
    ensures r.Some? ==> forall i :: 0 <= i < r.value ==> Complete(DataCells(log[i], header))
    ensures r.None? ==> forall i :: 0 <= i < |log| ==> Complete(DataCells(log[i], header))
  {
    if log == [] then None
    else if !Complete(DataCells(log[0], header)) then Some(0)
    else match FirstIncomplete(log[1..], header)
      case None => None
      case Some(i) => Some(i + 1)
  }

  /** A record that lacks a column after complete ones is the first incomplete one. */
  lemma {:induction false} FirstIncompleteAt(log: seq<LogRecord>, header: seq<int>, i: nat)
    requires i < |log| && !Complete(DataCells(log[i], header))
    requires forall k :: 0 <= k < i ==> Complete(DataCells(log[k], header))
    ensures FirstIncomplete(log, header) == Some(i)
  {
    if i > 0 {
      assert Complete(DataCells(log[0], header));
      assert forall k :: 0 <= k < i - 1 ==> log[1..][k] == log[k + 1];
      FirstIncompleteAt(log[1..], header, i - 1);
    }
  }

  /** Whether every record of the log has every attribute of the log. */
  predicate EveryRecordHasEveryColumn(log: seq<LogRecord>)
  {
    forall i, a :: 0 <= i < |log| && a in Columns(log) ==> a in log[i].attrs
  }

  /** The row of record `rec`, once every cell is known to be present. */
  function DataRow(rec: LogRecord, header: seq<int>): (row: TableRow)
    requires ValidDateTime(rec.timestamp) && Complete(DataCells(rec, header))
    ensures |row.cells| == |header|
  {
    TableRow(FormatTimestamp(rec.timestamp), Unwrap(DataCells(rec, header)))
  }

  /** In a complete record's row, column `j` shows attribute `header[j]`'s raw value and raw delta. */
  lemma DataRowShows(rec: LogRecord, header: seq<int>, j: nat)
    requires ValidDateTime(rec.timestamp) && Complete(DataCells(rec, header)) && j < |header|
    ensures header[j] in rec.attrs
    ensures var cell := DataRow(rec, header).cells[j];
      && ParseInt(cell.value) == Some(rec.attrs[header[j]].raw)
      && (cell.delta == NoChange <==> rec.attrs[header[j]].rawdelta == 0)
      && (rec.attrs[header[j]].rawdelta != 0 ==> ParseInt(cell.delta) == Some(rec.attrs[header[j]].rawdelta))
  {
    DataCellShows(rec, header, j);
    assert Some(DataRow(rec, header).cells[j]) == DataCells(rec, header)[j];
  }

  // ---------------------------------------------------------------------
  // Widths
  // ---------------------------------------------------------------------

  function Max(a: nat, b: nat): nat
  {
    if a < b then b else a
  }

  /** `colwidths` before any row is added. */
  function ZeroWidths(n: nat): (w: Widths)
    ensures |w.cols| == n
  {
    Widths(0, seq(n, _ => ColWidth(0, 0)))
  }

  /** The widths after `__add_row(row)`: each grows to fit the row's cell. */
  function Widen(w: Widths, row: TableRow): (r: Widths)
    requires |row.cells| == |w.cols|
    ensures |r.cols| == |w.cols|
    ensures Fits(row, r) && Below(w, r)
    ensures r.stamp == w.stamp || r.stamp == |row.stamp|
    ensures forall j :: 0 <= j < |r.cols| ==>
      && (r.cols[j].value == w.cols[j].value || r.cols[j].value == |row.cells[j].value|)
      && (r.cols[j].delta == w.cols[j].delta || r.cols[j].delta == |row.cells[j].delta|)
  {
    Widths(Max(w.stamp, |row.stamp|),
      seq(|w.cols|, j requires 0 <= j < |w.cols| =>
        ColWidth(Max(w.cols[j].value, |row.cells[j].value|), Max(w.cols[j].delta, |row.cells[j].delta|))))
  }

  predicate Shaped(rows: seq<TableRow>, n: nat)
  {
    forall i :: 0 <= i < |rows| ==> |rows[i].cells| == n
  }

  /** The widths once every row of the table has been added. */
  function Measure(rows: seq<TableRow>, n: nat): (w: Widths)
    requires Shaped(rows, n)
    ensures |w.cols| == n
  {
    if rows == [] then ZeroWidths(n)
    else Widen(Measure(rows[..|rows| - 1], n), rows[|rows| - 1])
  }

  /** Whether every cell of `row` fits the widths `w`. */
  predicate Fits(row: TableRow, w: Widths)
    requires |row.cells| == |w.cols|
  {
    && |row.stamp| <= w.stamp
    && forall j :: 0 <= j < |w.cols| ==>
         |row.cells[j].value| <= w.cols[j].value && |row.cells[j].delta| <= w.cols[j].delta
  }

  /** Whether no width of `w` exceeds the matching width of `v`. */
  predicate Below(w: Widths, v: Widths)
    requires |w.cols| == |v.cols|
  {
    && w.stamp <= v.stamp
    && forall j :: 0 <= j < |w.cols| ==> w.cols[j].value <= v.cols[j].value && w.cols[j].delta <= v.cols[j].delta
  }

  /** Every row of the table fits the measured widths. */
  lemma {:induction false} MeasureFitsAll(rows: seq<TableRow>, n: nat)
    requires Shaped(rows, n)
    ensures forall i :: 0 <= i < |rows| ==> Fits(rows[i], Measure(rows, n))
  {
    if rows != [] {
      var init := rows[..|rows| - 1];
      MeasureFitsAll(init, n);
      var w := Measure(init, n);
      forall i | 0 <= i < |rows|
        ensures Fits(rows[i], Measure(rows, n))
      {
        if i < |rows| - 1 {
          assert rows[i] == init[i];
          assert Fits(init[i], w);
        }
      }
    }
  }

  /** The measured widths are the least that every row fits. */
  lemma {:induction false} MeasureIsLeast(rows: seq<TableRow>, n: nat, v: Widths)
    requires Shaped(rows, n) && |v.cols| == n
    requires forall i :: 0 <= i < |rows| ==> Fits(rows[i], v)
    ensures Below(Measure(rows, n), v)
  {
    if rows != [] {
      var init := rows[..|rows| - 1];
      assert forall i :: 0 <= i < |init| ==> init[i] == rows[i];
      MeasureIsLeast(init, n, v);
      assert Fits(rows[|rows| - 1], v);
    }
  }

  // ---------------------------------------------------------------------
  // Rows of text
  // ---------------------------------------------------------------------

  /** One attribute cell: value right-aligned, a space, delta left-aligned. */
  function PairText(p: Pair, cw: ColWidth): string
  {
    RJust(p.value, cw.value) + " " + LJust(p.delta, cw.delta)
  }

  /** The list `t` that `format_row` joins. */
  function Pieces(row: TableRow, w: Widths): (t: seq<string>)
    requires |row.cells| == |w.cols|
    ensures |t| == |w.cols| + 1
  {
    [LJust(row.stamp, w.stamp)] + seq(|w.cols|, j requires 0 <= j < |w.cols| => PairText(row.cells[j], w.cols[j]))
  }

  /** `sep.join(t)`: the pieces in order with `sep` between neighbours; it begins with the first piece. */
  function Join(sep: string, t: seq<string>): (r: string)
    ensures t != [] ==> |t[0]| <= |r| && r[..|t[0]|] == t[0]
  {
    if |t| == 0 then ""
    else if |t| == 1 then t[0]
    else
      var init := t[..|t| - 1];
      var r := Join(sep, init) + sep + t[|t| - 1];
      assert init[0] == t[0];
      assert r[..|t[0]|] == Join(sep, init)[..|t[0]|];
      r
  }

  /** `format_row(row)`: the pieces joined by two spaces; it begins with the row's first cell. */
  function RenderRow(row: TableRow, w: Widths): (r: string)
    requires |row.cells| == |w.cols|
    ensures |row.stamp| <= |r| && r[..|row.stamp|] == row.stamp
  {
    var t := Pieces(row, w);
    var r := Join("  ", t);
    assert r[..|row.stamp|] == r[..|t[0]|][..|row.stamp|];
    r
  }

  /** The length of a row whose cells all fit: the widths plus the separators. */
  function LineWidth(w: Widths): nat
  {
    w.stamp + ColsWidth(w.cols)
  }

  function ColsWidth(cols: seq<ColWidth>): nat
  {
    if cols == [] then 0 else ColsWidth(cols[..|cols| - 1]) + 2 + cols[|cols| - 1].value + 1 + cols[|cols| - 1].delta
  }

  /** Every row that fits is exactly `LineWidth(w)` characters long. */
  lemma RenderRowWidth(row: TableRow, w: Widths)
    requires |row.cells| == |w.cols| && Fits(row, w)
    ensures |RenderRow(row, w)| == LineWidth(w)
  {
    var t := Pieces(row, w);
    forall k | 0 <= k <= |w.cols|
      ensures |Join("  ", t[..k + 1])| == w.stamp + ColsWidth(w.cols[..k])
    {
      JoinedPrefixWidth(row, w, k);
    }
    assert t[..|w.cols| + 1] == t;
    assert w.cols[..|w.cols|] == w.cols;
  }

  lemma {:induction false} JoinedPrefixWidth(row: TableRow, w: Widths, k: nat)
    requires |row.cells| == |w.cols| && Fits(row, w) && k <= |w.cols|
    ensures |Join("  ", Pieces(row, w)[..k + 1])| == w.stamp + ColsWidth(w.cols[..k])
  {
    var t := Pieces(row, w);
    if k == 0 {
      assert w.cols[..0] == [];
      assert t[..1] == [LJust(row.stamp, w.stamp)];
    } else {
      JoinedPrefixWidth(row, w, k - 1);
      var u := t[..k + 1];
      assert u[..k] == t[..k];
      JoinLength("  ", u);
      var cols := w.cols[..k];
      assert cols[..k - 1] == w.cols[..k - 1];
      assert ColsWidth(cols) == ColsWidth(w.cols[..k - 1]) + 2 + w.cols[k - 1].value + 1 + w.cols[k - 1].delta;
      assert u[k] == PairText(row.cells[k - 1], w.cols[k - 1]);
      PairTextWidth(row.cells[k - 1], w.cols[k - 1]);
    }
  }

  /** Joining the first `m` pieces gives the beginning of the whole joined text. */
  lemma {:induction false} JoinPrefix(sep: string, t: seq<string>, m: nat)
    requires 1 <= m <= |t|
    ensures Join(sep, t[..m]) <= Join(sep, t)
  {
    if m == |t| {
      assert t[..m] == t;
    } else {
      var init := t[..|t| - 1];
      JoinPrefix(sep, init, m);
      assert init[..m] == t[..m];
      assert Join(sep, t) == Join(sep, init) + sep + t[|t| - 1];
    }
  }

  /** Where column `j`'s separator starts in a rendered row: after the timestamp cell and the columns before it. */
  function CellOffset(w: Widths, j: nat): nat
    requires j < |w.cols|
  {
    w.stamp + ColsWidth(w.cols[..j])
  }

  /** `line` holds `sep` starting at `off`, and `piece` right after it. */
  predicate PlacedAt(line: string, off: nat, sep: string, piece: string)
  {
    && off + |sep| + |piece| <= |line|
    && line[off..off + |sep|] == sep
    && line[off + |sep|..off + |sep| + |piece|] == piece
  }

  /**
   * A row that fits is laid out column by column: after the padded
   * timestamp, column `j` sits at `CellOffset(w, j)` as two spaces and
   * its padded cell, which is `value + 1 + delta` characters wide.
   */
  lemma RenderRowShowsCells(row: TableRow, w: Widths, j: nat)
    requires |row.cells| == |w.cols| && Fits(row, w) && j < |w.cols|
    ensures PlacedAt(RenderRow(row, w), CellOffset(w, j), "  ", PairText(row.cells[j], w.cols[j]))
    ensures |PairText(row.cells[j], w.cols[j])| == w.cols[j].value + 1 + w.cols[j].delta
  {
    PieceLayout(row, w, j);
    JoinShowsPiece("  ", Pieces(row, w), j + 1);
  }

  /** Piece `j + 1` of a fitting row is column `j`'s padded cell, placed after `CellOffset(w, j)` characters. */
  lemma PieceLayout(row: TableRow, w: Widths, j: nat)
    requires |row.cells| == |w.cols| && Fits(row, w) && j < |w.cols|
    ensures RenderRow(row, w) == Join("  ", Pieces(row, w))
    ensures Pieces(row, w)[j + 1] == PairText(row.cells[j], w.cols[j])
    ensures |Join("  ", Pieces(row, w)[..j + 1])| == CellOffset(w, j)
    ensures |PairText(row.cells[j], w.cols[j])| == w.cols[j].value + 1 + w.cols[j].delta
  {
    JoinedPrefixWidth(row, w, j);
    PairTextWidth(row.cells[j], w.cols[j]);
  }

  /** In the joined text, piece `m` (for `m >= 1`) comes right after the first `m` pieces joined and the separator. */
  lemma JoinShowsPiece(sep: string, t: seq<string>, m: nat)
    requires 1 <= m < |t|
    ensures PlacedAt(Join(sep, t), |Join(sep, t[..m])|, sep, t[m])
  {
    JoinPrefix(sep, t, m + 1);
    JoinSnoc(sep, t, m);
    SlicesOfPrefix(Join(sep, t), Join(sep, t[..m]), sep, t[m]);
  }

  lemma JoinSnoc(sep: string, t: seq<string>, m: nat)
    requires 1 <= m < |t|
    ensures Join(sep, t[..m + 1]) == Join(sep, t[..m]) + sep + t[m]
  {
    var u := t[..m + 1];
    assert u[..m] == t[..m];
  }

  /** If `a + b + c` begins `line`, then `b` and `c` follow `a` there. */
  lemma SlicesOfPrefix(line: string, a: string, b: string, c: string)
    requires a + b + c <= line
    ensures PlacedAt(line, |a|, b, c)
  {
    var p := a + b + c;
    assert line[..|p|] == p;
    assert line[|a|..|a| + |b|] == p[|a|..|a| + |b|];
    assert line[|a| + |b|..|a| + |b| + |c|] == p[|a| + |b|..|p|];
  }

  /** A row that fits begins with its timestamp padded to the timestamp column's width. */
  lemma RenderRowShowsStamp(row: TableRow, w: Widths)
    requires |row.cells| == |w.cols| && Fits(row, w)
    ensures var line := RenderRow(row, w);
      w.stamp <= |line| && line[..w.stamp] == LJust(row.stamp, w.stamp)
  {
    var t := Pieces(row, w);
    assert t[0] == LJust(row.stamp, w.stamp);
  }

  lemma JoinLength(sep: string, u: seq<string>)
    requires |u| >= 2
    ensures |Join(sep, u)| == |Join(sep, u[..|u| - 1])| + |sep| + |u[|u| - 1]|
  {
  }

  lemma PairTextWidth(p: Pair, cw: ColWidth)
    requires |p.value| <= cw.value && |p.delta| <= cw.delta
    ensures |PairText(p, cw)| == cw.value + 1 + cw.delta
  {
  }

  // ---------------------------------------------------------------------
  // The whole printout
  // ---------------------------------------------------------------------

  /** `'%s (%s)' % (filename, modelname)`: the first line printed. */
  function Title(devname: DeviceName): string
  {
    devname.filename + " (" + devname.modelname + ")"
  }

  /**
   * What `print_table` writes, one element per `print` call, and the index
   * of the record at which it raises `TypeError`, if it does.
   */
  datatype Printout = Printout(lines: seq<string>, crash: Option<nat>)

  /** The rows of the table: the header row, then one row per record. */
  function TableRows(log: seq<LogRecord>, header: seq<int>): (rows: seq<TableRow>)
    requires ValidTimestamps(log)
    requires forall i :: 0 <= i < |log| ==> Complete(DataCells(log[i], header))
    ensures |rows| == |log| + 1 && Shaped(rows, |header|)
    ensures rows == [HeaderRow(header)] + DataRows(log, header)
  {
    [HeaderRow(header)] + DataRows(log, header)
  }

  /** One row per record, in log order. */
  function DataRows(log: seq<LogRecord>, header: seq<int>): (rows: seq<TableRow>)
    requires ValidTimestamps(log)
    requires forall i :: 0 <= i < |log| ==> Complete(DataCells(log[i], header))
    ensures |rows| == |log| && Shaped(rows, |header|)
    ensures forall i :: 0 <= i < |log| ==> rows[i] == DataRow(log[i], header)
  {
    seq(|log|, i requires 0 <= i < |log| => DataRow(log[i], header))
  }

  /**
   * `print_table`. A record that lacks one of the columns leaves `None` in
   * its row, and `__add_row` raises on it after only the title was printed.
   */
  function TableLines(devname: DeviceName, log: seq<LogRecord>): (out: Printout)
    requires ValidTimestamps(log)
    ensures out.lines != [] && out.lines[0] == Title(devname)
    ensures log == [] ==> out.crash.None? && out.lines == [Title(devname), NoAttributes]
    ensures out.crash.Some? ==> out.lines == [Title(devname)]
  {
    if log == [] then Printout([Title(devname), NoAttributes], None)
    else
      var header := Header(log);
      match FirstIncomplete(log, header)
      case Some(i) => Printout([Title(devname)], Some(i))
      case None =>
        var rows := TableRows(log, header);
        var w := Measure(rows, |header|);
        Printout([Title(devname)] + RenderAll(rows, w) + [""], None)
  }

  /** The text lines of the table rows. */
  function RenderAll(rows: seq<TableRow>, w: Widths): (lines: seq<string>)
    requires Shaped(rows, |w.cols|)
    ensures |lines| == |rows|
    ensures forall i :: 0 <= i < |rows| ==> lines[i] == RenderRow(rows[i], w)
  {
    seq(|rows|, i requires 0 <= i < |rows| => RenderRow(rows[i], w))
  }

  /** A table that is printed: the title, each row, then an empty line. */
  lemma TableLinesShape(devname: DeviceName, log: seq<LogRecord>)
    requires ValidTimestamps(log) && log != []
    requires TableLines(devname, log).crash.None?
    ensures FirstIncomplete(log, Header(log)).None?
    ensures var rows := TableRows(log, Header(log));
      TableLines(devname, log).lines == [Title(devname)] + RenderAll(rows, Measure(rows, |Header(log)|)) + [""]
  {
  }

  /** The header columns of a log are exactly its attributes. */
  lemma HeaderIsColumns(log: seq<LogRecord>, a: int)
    ensures a in Header(log) <==> a in Columns(log)
  {
  }

  /** Whether record `rec` has every attribute that appears in the log. */
  predicate HasEveryColumn(log: seq<LogRecord>, rec: LogRecord)
  {
    forall a :: a in Columns(log) ==> a in rec.attrs
  }

  /** A record's row has no empty cell exactly when it has every attribute of the log. */
  lemma CompleteIffHasEveryColumn(log: seq<LogRecord>, rec: LogRecord)
    ensures Complete(DataCells(rec, Header(log))) <==> HasEveryColumn(log, rec)
  {
    var header := Header(log);
    var cells := DataCells(rec, header);
    if Complete(cells) {
      forall a | a in Columns(log)
        ensures a in rec.attrs
      {
        HeaderIsColumns(log, a);
        var j :| 0 <= j < |header| && header[j] == a;
        assert cells[j].Some?;
      }
    } else {
      var j :| 0 <= j < |cells| && cells[j].None?;
      HeaderIsColumns(log, header[j]);
    }
  }

  /** Whether `print_table` raises, and where, before any row is printed. */
  lemma TableLinesCrash(devname: DeviceName, log: seq<LogRecord>)
    requires ValidTimestamps(log)
    ensures TableLines(devname, log).crash == if log == [] then None else FirstIncomplete(log, Header(log))
  {
  }

  /** The printout fails exactly when some record lacks some attribute of the log. */
  lemma TableFailsIffColumnMissing(devname: DeviceName, log: seq<LogRecord>)
    requires ValidTimestamps(log)
    ensures TableLines(devname, log).crash.None? <==> EveryRecordHasEveryColumn(log)
  {
    TableLinesCrash(devname, log);
    if log != [] {
      var header := Header(log);
      if EveryRecordHasEveryColumn(log) {
        forall i | 0 <= i < |log|
          ensures Complete(DataCells(log[i], header))
        {
          CompleteIffHasEveryColumn(log, log[i]);
        }
      } else {
        var i, a :| 0 <= i < |log| && a in Columns(log) && a !in log[i].attrs;
        CompleteIffHasEveryColumn(log, log[i]);
      }
    }
  }

  /** The crash, if any, is at the first record that lacks an attribute. */
  lemma CrashAtFirstIncompleteRecord(devname: DeviceName, log: seq<LogRecord>)
    requires ValidTimestamps(log)
    requires TableLines(devname, log).crash.Some?
    ensures var i := TableLines(devname, log).crash.value;
      && i < |log|
      && !HasEveryColumn(log, log[i])
      && forall k :: 0 <= k < i ==> HasEveryColumn(log, log[k])
  {
    TableLinesCrash(devname, log);
    var i := TableLines(devname, log).crash.value;
    CompleteIffHasEveryColumn(log, log[i]);
    forall k | 0 <= k < i
      ensures HasEveryColumn(log, log[k])
    {
      CompleteIffHasEveryColumn(log, log[k]);
    }
  }

  /** Rendered with the measured widths, every row has the same length. */
  lemma RowsAligned(rows: seq<TableRow>, n: nat)
    requires Shaped(rows, n)
    ensures var w := Measure(rows, n);
      forall i :: 0 <= i < |rows| ==> |RenderAll(rows, w)[i]| == LineWidth(w)
  {
    var w := Measure(rows, n);
    MeasureFitsAll(rows, n);
    forall i | 0 <= i < |rows|
      ensures |RenderAll(rows, w)[i]| == LineWidth(w)
    {
      RenderRowWidth(rows[i], w);
    }
  }

  /**
   * When the table is printed, the title comes first, an empty line last,
   * and every row in between has the same length.
   */
  lemma TableLinesAligned(devname: DeviceName, log: seq<LogRecord>)
    requires ValidTimestamps(log) && log != []
    requires TableLines(devname, log).crash.None?
    ensures var lines := TableLines(devname, log).lines;
      && |lines| == |log| + 3
      && lines[0] == Title(devname) && lines[|lines| - 1] == ""
      && var rowLines := lines[1..|lines| - 1];
         forall i :: 0 <= i < |rowLines| ==> |rowLines[i]| == |rowLines[0]|
  {
    var header := Header(log);
    TableLinesShape(devname, log);
    var rows := TableRows(log, header);
    var w := Measure(rows, |header|);
    var body := RenderAll(rows, w);
    var lines := TableLines(devname, log).lines;
    assert lines == [Title(devname)] + body + [""];
    assert lines[1..|lines| - 1] == body;
    RowsAligned(rows, |header|);
  }

  /** Line `k + 1` of a printed table is its row `k`. */
  lemma TableLineOfRow(devname: DeviceName, log: seq<LogRecord>, k: nat)
    requires ValidTimestamps(log) && log != [] && k <= |log|
    requires TableLines(devname, log).crash.None?
    ensures FirstIncomplete(log, Header(log)).None?
    ensures var rows := TableRows(log, Header(log));
      TableLines(devname, log).lines[k + 1] == RenderRow(rows[k], Measure(rows, |Header(log)|))
  {
    var header := Header(log);
    TableLinesShape(devname, log);
    var rows := TableRows(log, header);
    InnerIndex(Title(devname), RenderAll(rows, Measure(rows, |header|)), "", k);
  }

  /** Row `i + 1` of the table, after the header row, is the row of record `i`. */
  lemma TableRowOfRecord(log: seq<LogRecord>, header: seq<int>, i: nat)
    requires ValidTimestamps(log) && i < |log|
    requires forall k :: 0 <= k < |log| ==> Complete(DataCells(log[k], header))
    ensures TableRows(log, header)[i + 1] == DataRow(log[i], header)
  {
    InnerIndex(HeaderRow(header), DataRows(log, header), HeaderRow(header), i);
  }

  /** Element `k + 1` of `[a] + m + [b]` is element `k` of `m`; so is element `k + 1` of `[a] + m`. */
  lemma InnerIndex<T>(a: T, m: seq<T>, b: T, k: nat)
    requires k < |m|
    ensures ([a] + m + [b])[k + 1] == m[k] && ([a] + m)[k + 1] == m[k]
  {
  }

  /** The line of record `i`, below the title and the header, begins with its timestamp. */
  lemma DataLineShowsTimestamp(devname: DeviceName, log: seq<LogRecord>, i: nat)
    requires ValidTimestamps(log) && i < |log|
    requires TableLines(devname, log).crash.None?
    ensures var line := TableLines(devname, log).lines[i + 2];
      && 19 <= |line|
      && ParseTimestamp(line[..19]) == Some(log[i].timestamp)
  {
    var header := Header(log);
    TableLineOfRow(devname, log, i + 1);
    var rows := TableRows(log, header);
    TableRowOfRecord(log, header, i);
    StampedLine(TableLines(devname, log).lines[i + 2], rows[i + 1], Measure(rows, |header|), log[i].timestamp);
  }

  /** A rendered row whose first cell is a formatted timestamp starts with text that parses back to it. */
  lemma StampedLine(line: string, row: TableRow, w: Widths, t: DateTime)
    requires ValidDateTime(t) && |row.cells| == |w.cols|
    requires row.stamp == FormatTimestamp(t) && line == RenderRow(row, w)
    ensures 19 <= |line| && ParseTimestamp(line[..19]) == Some(t)
  {
    FormatThenParse(t);
  }

}
