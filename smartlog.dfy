/**
 * `SMART_Log`: one device's attribute log, read from the rows of its CSV
 * file, optionally shortened, and shown as a table or as a JSON document.
 *
 * Reading the file is left to the caller, which hands over the rows as the
 * `csv` module splits them. `__init__` can raise, and a Dafny constructor
 * cannot fail, so `Open` builds the object and returns it or the error.
 */
module SmartLogs {
  import opened Wrappers
  import opened Timestamps
  import opened Records
  import opened ChangeDetection
  import opened Compaction
  import opened Devices
  import opened Rendering

  /**
   * One group of three in the loop of `__init__`: an unwatched attribute
   * is skipped; a watched one is compared with `lastvalues`, which is
   * updated on a change or a first sighting, and lands in the record.
   */
  method ScanGroup(last: map<int, SmartAttr>, adict: map<int, SmartAttr>, ndeltas: nat, g: Triple, onlyAttrs: set<int>)
    returns (last': map<int, SmartAttr>, adict': map<int, SmartAttr>, ndeltas': nat)
    ensures ScanState(last', adict', ndeltas') == StepGroup(ScanState(last, adict, ndeltas), g, onlyAttrs)
  {
    last', adict', ndeltas' := last, adict, ndeltas;
    if g.id !in onlyAttrs {
      return;
    }
    var curattr := SmartAttr(g.value, 0, g.raw, 0);
    if g.id in last {
      var changed;
      curattr, changed := ComputeDeltas(curattr, last[g.id]).0, ComputeDeltas(curattr, last[g.id]).1;
      if changed {
        last' := last[g.id := curattr];
        ndeltas' := ndeltas + 1;
      }
    } else {
      last' := last[g.id := curattr];
    }
    adict' := adict[g.id := curattr];
  }

  /**
   * The checks and the group loop for one row of the log. Given the
   * `lastvalues` table before the row, the result is the row's timestamp
   * and the state of the group loop after it, or the error the row raises.
   */
  method ReadRow(rec: seq<string>, ixrec: nat, fpath: string, onlyAttrs: set<int>, lastvalues: map<int, SmartAttr>)
    returns (r: Result<(DateTime, ScanState), LogError>)
    ensures ParseRow(rec, ixrec, fpath).Failure? ==> r == Failure(ParseRow(rec, ixrec, fpath).error)
    ensures ParseRow(rec, ixrec, fpath).Success? ==>
      var row := ParseRow(rec, ixrec, fpath).value;
      r == Success((row.timestamp, ScanGroups(ScanState(lastvalues, map[], 0), row.groups, onlyAttrs)))
  {
    var nflds := |rec| - 2;
    if nflds % 3 != 0 {
      FieldCountCheckedFirst(rec, ixrec, fpath);
      return Failure(InvalidFieldCount(ixrec, fpath));
    }
    TimestampCheckedSecond(rec, ixrec, fpath);
    var date := ParseTimestamp(rec[0]);
    if date.None? {
      return Failure(InvalidDateTime(ixrec, fpath));
    }

    var sc := ScanRow(rec, ixrec, fpath, onlyAttrs, lastvalues);
    if sc.Failure? {
      return Failure(sc.error);
    }
    return Success((date.value, sc.value));
  }

  /**
   * The group loop of one row whose field count is right: the state after
   * every group, or the error of the first group that is not three integers.
   */
  method ScanRow(rec: seq<string>, ixrec: nat, fpath: string, onlyAttrs: set<int>, lastvalues: map<int, SmartAttr>)
    returns (r: Result<ScanState, LogError>)
    requires |rec| >= 2 && (|rec| - 2) % 3 == 0
    ensures var c := CollectGroups(GroupResults(rec), ixrec, fpath);
      && (c.Failure? ==> r == Failure(c.error))
      && (c.Success? ==> r == Success(ScanGroups(ScanState(lastvalues, map[], 0), c.value, onlyAttrs)))
  {
    var last := lastvalues;
    var adict: map<int, SmartAttr> := map[];
    var ndeltas: nat := 0;
    ghost var groups: seq<Triple> := [];
    ghost var gs := GroupResults(rec);
    for k := 0 to (|rec| - 2) / 3
      invariant |groups| == k
      invariant forall j :: 0 <= j < k ==> gs[j] == Some(groups[j])
      invariant ScanState(last, adict, ndeltas) == ScanGroups(ScanState(lastvalues, map[], 0), groups, onlyAttrs)
    {
      var sattrv := ParseTriple(rec[3 * k + 1], rec[3 * k + 2], rec[3 * k + 3]);
      if sattrv.None? {
        assert gs[k] == GroupAt(rec, k);
        EarliestBadGroup(gs, k, ixrec, fpath);
        return Failure(InvalidAttributes(k + 1, ixrec, fpath));
      }
      var g := sattrv.value;
      ScanOneMore(ScanState(lastvalues, map[], 0), groups, g, onlyAttrs);
      groups := groups + [g];
      last, adict, ndeltas := ScanGroup(last, adict, ndeltas, g, onlyAttrs);
    }
    assert CollectGroups(gs, ixrec, fpath).value == groups;
    return Success(ScanState(last, adict, ndeltas));
  }

  /**
   * `__add_row` of `print_table`: each width grows to fit the row's cell.
   * A cell left at `None` makes Python raise `TypeError`; that is `None` here.
   */
  method AddRow(colwidths: Widths, stamp: string, cells: seq<Option<Pair>>) returns (r: Option<Widths>)
    requires |cells| == |colwidths.cols|
    ensures r.None? <==> !Complete(cells)
    ensures r.Some? ==> r.value == Widen(colwidths, TableRow(stamp, Unwrap(cells)))
  {
    var w := colwidths;
    var sl := |stamp|;
    if sl > w.stamp {
      w := w.(stamp := sl);
    }
    for ixcol := 0 to |cells|
      invariant |w.cols| == |cells| && w.stamp == Max(colwidths.stamp, |stamp|)
      invariant forall j :: 0 <= j < ixcol ==> cells[j].Some?
      invariant forall j :: 0 <= j < ixcol ==>
        w.cols[j] == ColWidth(Max(colwidths.cols[j].value, |cells[j].value.value|), Max(colwidths.cols[j].delta, |cells[j].value.delta|))
      invariant forall j :: ixcol <= j < |cells| ==> w.cols[j] == colwidths.cols[j]
    {
      if cells[ixcol].None? {
        return None;
      }
      var cell := cells[ixcol].value;
      var valuewidth, deltawidth := w.cols[ixcol].value, w.cols[ixcol].delta;
      if |cell.value| > valuewidth {
        valuewidth := |cell.value|;
      }
      if |cell.delta| > deltawidth {
        deltawidth := |cell.delta|;
      }
      w := w.(cols := w.cols[ixcol := ColWidth(valuewidth, deltawidth)]);
    }
    return Some(w);
  }

  /** `format_row` of `print_table`: the padded cells joined by two spaces. */
  method FormatRow(row: TableRow, colwidths: Widths) returns (s: string)
    requires |row.cells| == |colwidths.cols|
    ensures s == RenderRow(row, colwidths)
  {
    var t := [LJust(row.stamp, colwidths.stamp)];
    for ixcol := 0 to |row.cells|
      invariant |t| == ixcol + 1 && t[0] == LJust(row.stamp, colwidths.stamp)
      invariant forall j :: 0 <= j < ixcol ==> t[1..][j] == PairText(row.cells[j], colwidths.cols[j])
    {
      var cell, cw := row.cells[ixcol], colwidths.cols[ixcol];
      assert (t + [PairText(cell, cw)])[1..] == t[1..] + [PairText(cell, cw)];
      t := t + [RJust(cell.value, cw.value) + " " + LJust(cell.delta, cw.delta)];
    }
    assert t == Pieces(row, colwidths);
    s := Join("  ", t);
  }

  /** `attrids`: the attributes of every record, collected record by record. */
  method AttributeIds(log: seq<LogRecord>) returns (attrids: set<int>)
    ensures attrids == Columns(log)
  {
    attrids := {};
    for i := 0 to |log|
      invariant attrids == Columns(log[..i])
    {
      assert log[..i + 1][..i] == log[..i];
      attrids := attrids + log[i].attrs.Keys;
    }
    assert log[..|log|] == log;
  }

  /** `headercols`: the position of each attribute among the header's columns. */
  method HeaderColumns(header: seq<int>) returns (headercols: map<int, nat>)
    ensures forall a :: a in headercols <==> a in header
    ensures forall a :: a in headercols ==> headercols[a] < |header| && header[headercols[a]] == a
  {
    headercols := map[];
    for ixcol := 0 to |header|
      invariant forall a :: a in headercols <==> a in header[..ixcol]
      invariant forall a :: a in headercols ==> headercols[a] < ixcol && header[headercols[a]] == a
    {
      assert header[..ixcol + 1] == header[..ixcol] + [header[ixcol]];
      headercols := headercols[header[ixcol] := ixcol];
    }
    assert header[..|header|] == header;
  }

  /**
   * The row of one record before `__add_row`: each attribute's cell placed
   * in its column through `headercols`, `None` in the other columns.
   */
  method FillRow(rec: LogRecord, header: seq<int>, headercols: map<int, nat>) returns (cells: seq<Option<Pair>>)
    requires forall i, j :: 0 <= i < j < |header| ==> header[i] < header[j]
    requires forall a :: a in rec.attrs ==> a in headercols
    requires forall a :: a in headercols ==> headercols[a] < |header| && header[headercols[a]] == a
    ensures cells == DataCells(rec, header)
  {
    cells := seq(|header|, _ => None);
    var todo := rec.attrs.Keys;
    while todo != {}
      invariant todo <= rec.attrs.Keys && |cells| == |header|
      invariant forall j :: 0 <= j < |header| ==>
        cells[j] == if header[j] in rec.attrs && header[j] !in todo then Some(AttrCell(rec.attrs[header[j]])) else None
      decreases todo
    {
      HasMember(todo);
      var attr :| attr in todo;
      var col := headercols[attr];
      cells := cells[col := Some(AttrCell(rec.attrs[attr]))];
      todo := todo - {attr};
      forall j | 0 <= j < |header| && j != col
        ensures header[j] != attr
      {
        assert header[col] == attr;
        if j < col { assert header[j] < header[col]; } else { assert header[col] < header[j]; }
      }
    }
  }

  /**
   * The table of `print_table`'s loop after `i` records: each of them has
   * every column, and the table holds the header row and their rows.
   */
  ghost predicate TableSoFar(log: seq<LogRecord>, header: seq<int>, i: nat, table: seq<TableRow>)
  {
    && i <= |log| && ValidTimestamps(log)
    && (forall k :: 0 <= k < i ==> Complete(DataCells(log[k], header)))
    && ValidTimestamps(log[..i])
    && |table| > 0 && table[0] == HeaderRow(header)
    && table[1..] == DataRows(log[..i], header)
    && Shaped(table, |header|)
  }

  lemma TableSoFarStart(log: seq<LogRecord>, header: seq<int>)
    requires ValidTimestamps(log)
    ensures TableSoFar(log, header, 0, [HeaderRow(header)])
  {
  }

  lemma TableSoFarStep(log: seq<LogRecord>, header: seq<int>, i: nat, table: seq<TableRow>, row: TableRow)
    requires TableSoFar(log, header, i, table) && i < |log|
    requires Complete(DataCells(log[i], header)) && row == DataRow(log[i], header)
    ensures TableSoFar(log, header, i + 1, table + [row])
  {
    assert forall k :: 0 <= k < i + 1 ==> log[..i + 1][k] == log[k];
    assert DataRows(log[..i + 1], header) == DataRows(log[..i], header) + [row];
    assert (table + [row])[1..] == table[1..] + [row];
  }

  lemma TableSoFarDone(log: seq<LogRecord>, header: seq<int>, table: seq<TableRow>)
    requires TableSoFar(log, header, |log|, table)
    ensures FirstIncomplete(log, header).None?
    ensures table == TableRows(log, header)
  {
    assert log[..|log|] == log;
    assert table == [table[0]] + table[1..];
  }

  /** Measuring one more row widens the widths of the rows before it. */
  lemma MeasureStep(table: seq<TableRow>, row: TableRow, n: nat)
    requires Shaped(table, n) && |row.cells| == n
    ensures Shaped(table + [row], n)
    ensures Measure(table + [row], n) == Widen(Measure(table, n), row)
  {
    assert (table + [row])[..|table|] == table;
  }

  /** The widths after `__add_row` of the header row alone. */
  method HeaderWidths(headerrow: TableRow) returns (colwidths: Widths)
    ensures colwidths == Measure([headerrow], |headerrow.cells|)
  {
    var n := |headerrow.cells|;
    var added := AddRow(ZeroWidths(n), headerrow.stamp, seq(n, j requires 0 <= j < n => Some(headerrow.cells[j])));
    colwidths := added.value;
    MeasureStep([], headerrow, n);
  }

  /**
   * One record's turn in the loop of `print_table`: its row, and the
   * widths once `__add_row` has taken it; `None` where `__add_row` raises.
   */
  method RecordRow(rec: LogRecord, header: seq<int>, headercols: map<int, nat>, colwidths: Widths)
    returns (next: Option<(TableRow, Widths)>)
    requires ValidDateTime(rec.timestamp) && |colwidths.cols| == |header|
    requires forall i, j :: 0 <= i < j < |header| ==> header[i] < header[j]
    requires forall a :: a in rec.attrs ==> a in headercols
    requires forall a :: a in headercols ==> headercols[a] < |header| && header[headercols[a]] == a
    ensures next.None? <==> !Complete(DataCells(rec, header))
    ensures next.Some? ==> next.value.0 == DataRow(rec, header) && next.value.1 == Widen(colwidths, DataRow(rec, header))
  {
    var cells := FillRow(rec, header, headercols);
    var stamp := FormatTimestamp(rec.timestamp);
    var added := AddRow(colwidths, stamp, cells);
    if added.None? {
      return None;
    }
    return Some((TableRow(stamp, Unwrap(cells)), added.value));
  }

  /**
   * The header row and then one row per record, with the widths they
   * need; stops at the first record that lacks a column, where
   * `__add_row` raises.
   */
  method BuildTable(log: seq<LogRecord>, header: seq<int>, headercols: map<int, nat>)
    returns (failed: Option<nat>, table: seq<TableRow>, colwidths: Widths)
    requires ValidTimestamps(log)
    requires forall i, j :: 0 <= i < j < |header| ==> header[i] < header[j]
    requires forall i, a :: 0 <= i < |log| && a in log[i].attrs ==> a in headercols
    requires forall a :: a in headercols ==> headercols[a] < |header| && header[headercols[a]] == a
    ensures failed == FirstIncomplete(log, header)
    ensures failed.None? ==> table == TableRows(log, header) && colwidths == Measure(table, |header|)
  {
    var nattrcols := |header|;
    var headerrow := HeaderRow(header);
    colwidths := HeaderWidths(headerrow);
    table := [headerrow];

    TableSoFarStart(log, header);
    for i := 0 to |log|
      invariant TableSoFar(log, header, i, table)
      invariant colwidths == Measure(table, nattrcols)
    {
      var next := RecordRow(log[i], header, headercols, colwidths);
      if next.None? {
        FirstIncompleteAt(log, header, i);
        return Some(i), table, colwidths;
      }
      TableSoFarStep(log, header, i, table, next.value.0);
      MeasureStep(table, next.value.0, nattrcols);
      colwidths := next.value.1;
      table := table + [next.value.0];
    }
    TableSoFarDone(log, header, table);
    failed := None;
  }

  /** The text line of every row, in order, as `format_row` makes it. */
  method RenderRows(table: seq<TableRow>, colwidths: Widths) returns (lines: seq<string>)
    requires Shaped(table, |colwidths.cols|)
    ensures lines == RenderAll(table, colwidths)
  {
    lines := [];
    for i := 0 to |table|
      invariant lines == RenderAll(table[..i], colwidths)
    {
      var text := FormatRow(table[i], colwidths);
      lines := lines + [text];
    }
    assert table[..|table|] == table;
  }

  /**
   * One survivor of the compaction: each attribute the first record also
   * has gets its delta measured again from the first record's value.
   */
  method RebaseRecord(rec: LogRecord, lastvalues: map<int, SmartAttr>) returns (r: LogRecord)
    ensures r == Rebase(rec, lastvalues)
  {
    var attrs := rec.attrs;
    var todo := rec.attrs.Keys;
    while todo != {}
      invariant todo <= rec.attrs.Keys && attrs.Keys == rec.attrs.Keys
      invariant forall a :: a in attrs ==>
        attrs[a] == if a in todo then rec.attrs[a] else RebaseAttr(a, rec.attrs[a], lastvalues)
      decreases todo
    {
      HasMember(todo);
      var nattr :| nattr in todo;
      if nattr in lastvalues {
        attrs := attrs[nattr := ComputeDeltas(attrs[nattr], lastvalues[nattr]).0];
      }
      todo := todo - {nattr};
    }
    assert attrs == Rebase(rec, lastvalues).attrs;
    return LogRecord(rec.timestamp, attrs);
  }

  /**
   * The row loop of `__init__`: each row is checked and scanned in turn,
   * and appended when it is the first or something changed; `lastvalues`,
   * `firstrecord`, the log and the row count are carried along.
   */
  method ReadLog(fpath: string, rows: seq<seq<string>>, onlyAttrs: set<int>) returns (r: Result<BuildState, LogError>)
    ensures ParseRows(rows, fpath).Failure? ==> r == Failure(ParseRows(rows, fpath).error)
    ensures ParseRows(rows, fpath).Success? ==> r == Success(Replay(ParseRows(rows, fpath).value, onlyAttrs))
  {
    var log: seq<LogRecord> := [];
    var lastvalues: map<int, SmartAttr> := map[];
    var firstrecord := true;
    var nrawrecords := 0;
    ghost var prs: seq<Row> := [];
    for ix := 0 to |rows|
      invariant |prs| == ix && PrefixParsed(rows, fpath, prs)
      invariant BuildState(log, lastvalues, firstrecord, nrawrecords) == Replay(prs, onlyAttrs)
    {
      ghost var pr := ParseRow(rows[ix], ix + 1, fpath);
      var rr := ReadRow(rows[ix], ix + 1, fpath, onlyAttrs, lastvalues);
      if rr.Failure? {
        ParseRowsFirstBad(rows, fpath, prs);
        return Failure(rr.error);
      }
      var date, sc := rr.value.0, rr.value.1;
      ghost var row := pr.value;
      PrefixParsedExtend(rows, fpath, prs, row);
      ReplayOneMore(prs, row, onlyAttrs);
      nrawrecords := nrawrecords + 1;
      if firstrecord || sc.ndeltas > 0 {
        log := log + [LogRecord(date, sc.adict)];
        firstrecord := false;
      }
      lastvalues := sc.last;
      prs := prs + [row];
    }
    ParseRowsAllGood(rows, fpath, prs);
    return Success(BuildState(log, lastvalues, firstrecord, nrawrecords));
  }

  /** `smart_log_rec` pairs as `get_json` hands them to `json.dumps`. */
  datatype JsonLog = JsonLog(device: string, model: string, log: seq<(string, map<int, SmartAttr>)>)

  class SmartLog {
    /** The kept records, oldest first. */
    var log: seq<LogRecord>
    var devname: DeviceName
    /** How many rows of the file were read, kept or not. */
    var nrawrecords: nat

    ghost predicate Valid()
      reads this
    {
      ValidTimestamps(log)
    }

    /** The object before the file is read. */
    constructor Init(devname: DeviceName)
      ensures log == [] && this.devname == devname && nrawrecords == 0
      ensures Valid()
    {
      log := [];
      this.devname := devname;
      nrawrecords := 0;
    }

    /**
     * The row loop of `__init__`: read every row, keep the first one and
     * every later one in which a watched attribute changed. The first row
     * that does not parse stops the loop with its error.
     */
    method ReadRecords(fpath: string, rows: seq<seq<string>>, onlyAttrs: set<int>) returns (err: Option<LogError>)
      modifies this
      ensures devname == old(devname)
      ensures err.None? ==> Valid()
      ensures ParseRows(rows, fpath).Failure? ==> err == Some(ParseRows(rows, fpath).error)
      ensures ParseRows(rows, fpath).Success? ==>
        && err.None?
        && log == Replay(ParseRows(rows, fpath).value, onlyAttrs).log
        && nrawrecords == |rows|
    {
      var r := ReadLog(fpath, rows, onlyAttrs);
      if r.Failure? {
        return Some(r.error);
      }
      var prs := ParseRows(rows, fpath).value;
      ReplayMatchesReference(prs, onlyAttrs);
      ParsedRowsHaveValidTimestamps(rows, fpath);
      ReplayKeepsTimestampsValid(prs, onlyAttrs);
      log, nrawrecords := r.value.log, r.value.nrawrecords;
      return None;
    }

    /**
     * `print_table`: the lines it prints, and the record at which it
     * raises if a record lacks one of the columns.
     */
    method PrintTable() returns (out: Printout)
      requires Valid()
      ensures out == TableLines(devname, log)
    {
      var lines := [Title(devname)];
      if log == [] {
        return Printout(lines + [NoAttributes], None);
      }

      var attrids := AttributeIds(log);
      var header := SortedIds(attrids);
      var headercols := HeaderColumns(header);

      var failed, table, colwidths := BuildTable(log, header, headercols);
      if failed.Some? {
        return Printout(lines, failed);
      }
      var body := RenderRows(table, colwidths);
      return Printout(lines + body + [""], None);
    }

    /** `get_json`: the device, its model, and each record's time as text with its attributes. */
    method GetJson() returns (j: JsonLog)
      requires Valid()
      ensures j.device == devname.filename && j.model == devname.modelname
      ensures |j.log| == |log|
      ensures forall i :: 0 <= i < |log| ==> ParseTimestamp(j.log[i].0) == Some(log[i].timestamp)
      ensures forall i :: 0 <= i < |log| ==> j.log[i].1 == log[i].attrs
    {
      var buf: seq<(string, map<int, SmartAttr>)> := [];
      for i := 0 to |log|
        invariant |buf| == i
        invariant forall k :: 0 <= k < i ==> ParseTimestamp(buf[k].0) == Some(log[k].timestamp)
        invariant forall k :: 0 <= k < i ==> buf[k].1 == log[k].attrs
      {
        var rec := log[i];
        var rd := rec.attrs;
        FormatThenParse(rec.timestamp);
        buf := buf + [(FormatTimestamp(rec.timestamp), rd)];
      }
      return JsonLog(devname.filename, devname.modelname, buf);
    }

    /**
     * The compaction step of `__init__`: with `shorten` and more than
     * `MAX_LOG_RECORDS` records, keep the first and the most recent ones
     * and measure the survivors' deltas again from the first record.
     */
    method Shorten(shorten: bool)
      requires Valid()
      modifies this
      ensures Valid()
      ensures log == Shortened(old(log), shorten)
      ensures devname == old(devname) && nrawrecords == old(nrawrecords)
    {
      ShortenedKeepsTimestampsValid(log, shorten);
      var loglen := |log|;
      if shorten && loglen > MaxLogRecords {
        ghost var kept := Survivors(log);
        log := log[..1] + log[loglen - (MaxLogRecords - 1)..];
        assert log == kept;
        var lastvalues := log[0].attrs;
        for ix := 1 to |log|
          invariant |log| == MaxLogRecords && log[0] == kept[0]
          invariant forall i :: 1 <= i < ix ==> log[i] == Rebase(kept[i], lastvalues)
          invariant forall i :: ix <= i < |log| ==> log[i] == kept[i]
          invariant devname == old(devname) && nrawrecords == old(nrawrecords)
        {
          var rec := RebaseRecord(log[ix], lastvalues);
          log := log[ix := rec];
        }
        assert log == Shortened(old(log), shorten);
      }
    }
  }

  /**
   * `SMART_Log(fpath, devname, onlyAttrs, shorten)`: the log read from the
   * rows of `fpath`, or the error of its first bad row.
   */
  method Open(fpath: string, rows: seq<seq<string>>, devname: DeviceName, onlyAttrs: set<int>, shorten: bool)
    returns (r: Result<SmartLog, LogError>)
    ensures ParseRows(rows, fpath).Failure? ==> r == Failure(ParseRows(rows, fpath).error)
    ensures ParseRows(rows, fpath).Success? ==>
      && r.Success? && fresh(r.value) && r.value.Valid()
      && r.value.devname == devname && r.value.nrawrecords == |rows|
      && r.value.log == Shortened(Replay(ParseRows(rows, fpath).value, onlyAttrs).log, shorten)
  {
    var l := new SmartLog.Init(devname);
    var err := l.ReadRecords(fpath, rows, onlyAttrs);
    if err.Some? {
      return Failure(err.value);
    }
    l.Shorten(shorten);
    return Success(l);
  }
}
