/**
 * One row of a smartd attribute log: a timestamp, then groups of three
 * integers (attribute ID, normalised value, raw value), then one reserved
 * field. This module reads a row; it knows nothing of other rows.
 */
module Records {
  import opened Wrappers
  import opened Numbers
  import opened Timestamps

  /** `smart_attr`: one attribute's value and raw value, each with its change. */
  datatype SmartAttr = SmartAttr(value: int, valdelta: int, raw: int, rawdelta: int)

  /**
   * `smart_attr.compute_deltas`: `self` with its deltas measured from `other`,
   * and whether either delta is non-zero.
   */
  function ComputeDeltas(self: SmartAttr, other: SmartAttr): (r: (SmartAttr, bool))
    ensures r.0.value == self.value && r.0.raw == self.raw
    ensures other.value + r.0.valdelta == self.value && other.raw + r.0.rawdelta == self.raw
    ensures r.1 <==> (self.value != other.value || self.raw != other.raw)
  {
    var updated := self.(valdelta := self.value - other.value, rawdelta := self.raw - other.raw);
    (updated, updated.valdelta != 0 || updated.rawdelta != 0)
  }

  /** `smart_log_rec`: a timestamp and the watched attributes of one row. */
  datatype LogRecord = LogRecord(timestamp: DateTime, attrs: map<int, SmartAttr>)

  /** Every timestamp of the log is a real calendar moment, as `strptime` guarantees. */
  predicate ValidTimestamps(log: seq<LogRecord>)
  {
    forall i :: 0 <= i < |log| ==> ValidDateTime(log[i].timestamp)
  }

  /** Why a log could not be read; `ixrec` and `ixattr` count from 1. */
  datatype LogError =
    | InvalidFieldCount(ixrec: nat, fpath: string)
    | InvalidDateTime(ixrec: nat, fpath: string)
    | InvalidAttributes(ixattr: nat, ixrec: nat, fpath: string)

  /** One group of three integers: attribute ID, normalised value, raw value. */
  datatype Triple = Triple(id: int, value: int, raw: int)

  /** A row that parsed: its timestamp and all of its groups, watched or not. */
  datatype Row = Row(timestamp: DateTime, groups: seq<Triple>)

  /** `map(lambda s: int(s.strip()), sattrv)` over one group. */
  function ParseTriple(a: string, b: string, c: string): Option<Triple>
  {
    match (ParseInt(a), ParseInt(b), ParseInt(c))
    case (Some(id), Some(value), Some(raw)) => Some(Triple(id, value, raw))
    case _ => None
  }

  /** Group `k` (from 0) of a row: fields `3k + 1`, `3k + 2` and `3k + 3`. */
  function GroupAt(rec: seq<string>, k: nat): Option<Triple>
    requires 3 * k + 4 <= |rec|
  {
    ParseTriple(rec[3 * k + 1], rec[3 * k + 2], rec[3 * k + 3])
  }

  /** Every group of a row, each read on its own: `None` where `int()` would raise. */
  function GroupResults(rec: seq<string>): (gs: seq<Option<Triple>>)
    requires |rec| >= 2 && (|rec| - 2) % 3 == 0
    ensures |gs| == (|rec| - 2) / 3
    ensures forall k :: 0 <= k < |gs| ==> gs[k] == GroupAt(rec, k)
  {
    seq((|rec| - 2) / 3, k requires 0 <= k < (|rec| - 2) / 3 => GroupAt(rec, k))
  }

  /** The groups in order, stopping at the first that is not three integers. */
  function CollectGroups(gs: seq<Option<Triple>>, ixrec: nat, fpath: string): (r: Result<seq<Triple>, LogError>)
    ensures r.Success? <==> forall k :: 0 <= k < |gs| ==> gs[k].Some?
    ensures r.Success? ==> |r.value| == |gs| && forall k :: 0 <= k < |gs| ==> gs[k] == Some(r.value[k])
  {
    if gs == [] then Success([])
    else
      match CollectGroups(gs[..|gs| - 1], ixrec, fpath)
      case Failure(e) => Failure(e)
      case Success(ts) =>
        match gs[|gs| - 1]
        case None => Failure(InvalidAttributes(|gs|, ixrec, fpath))
        case Some(t) => Success(ts + [t])
  }

  /** A failure names the earliest group, counted from 1, that is not three integers. */
  lemma {:induction false} CollectGroupsFailure(gs: seq<Option<Triple>>, ixrec: nat, fpath: string)
    requires CollectGroups(gs, ixrec, fpath).Failure?
    ensures var e := CollectGroups(gs, ixrec, fpath).error;
      && e.InvalidAttributes? && e.ixrec == ixrec && e.fpath == fpath
      && 1 <= e.ixattr <= |gs|
      && gs[e.ixattr - 1].None?
      && forall k :: 0 <= k < e.ixattr - 1 ==> gs[k].Some?
  {
    var init := gs[..|gs| - 1];
    if CollectGroups(init, ixrec, fpath).Failure? {
      CollectGroupsFailure(init, ixrec, fpath);
      var e := CollectGroups(init, ixrec, fpath).error;
      assert forall k :: 0 <= k < e.ixattr - 1 ==> init[k] == gs[k];
    }
  }

  /** The earliest group that is not three integers is the one reported. */
  lemma {:induction false} EarliestBadGroup(gs: seq<Option<Triple>>, k: nat, ixrec: nat, fpath: string)
    requires k < |gs| && gs[k].None? && forall j :: 0 <= j < k ==> gs[j].Some?
    ensures CollectGroups(gs, ixrec, fpath) == Failure(InvalidAttributes(k + 1, ixrec, fpath))
    decreases |gs|
  {
    var init := gs[..|gs| - 1];
    if |gs| == k + 1 {
      assert CollectGroups(init, ixrec, fpath).Success?;
    } else {
      EarliestBadGroup(init, k, ixrec, fpath);
    }
  }

  /**
   * The checks one row of the log goes through, in the order the viewer
   * makes them: field count, timestamp, then each group in turn.
   * `ixrec` is the row's 1-based position in the file.
   */
  function ParseRow(rec: seq<string>, ixrec: nat, fpath: string): (r: Result<Row, LogError>)
    ensures r.Success? ==>
      && |rec| == 3 * |r.value.groups| + 2
      && ParseTimestamp(rec[0]) == Some(r.value.timestamp)
      && forall k :: 0 <= k < |r.value.groups| ==> GroupAt(rec, k) == Some(r.value.groups[k])
  {
    var nflds := |rec| - 2;
    if nflds % 3 != 0 then Failure(InvalidFieldCount(ixrec, fpath))
    else
      match ParseTimestamp(rec[0])
      case None => Failure(InvalidDateTime(ixrec, fpath))
      case Some(date) =>
        match CollectGroups(GroupResults(rec), ixrec, fpath)
        case Failure(e) => Failure(e)
        case Success(groups) => Success(Row(date, groups))
  }

  /**
   * A row that passes all three checks is accepted, with the parsed time
   * and every group in order.
   */
  lemma GoodRowAccepted(rec: seq<string>, ixrec: nat, fpath: string)
    requires |rec| >= 2 && (|rec| - 2) % 3 == 0 && ParseTimestamp(rec[0]).Some?
    requires forall k :: 0 <= k < (|rec| - 2) / 3 ==> GroupAt(rec, k).Some?
    ensures ParseRow(rec, ixrec, fpath).Success?
    ensures ParseRow(rec, ixrec, fpath).value.timestamp == ParseTimestamp(rec[0]).value
    ensures |ParseRow(rec, ixrec, fpath).value.groups| == (|rec| - 2) / 3
  {
    var gs := GroupResults(rec);
    assert forall k :: 0 <= k < |gs| ==> gs[k].Some?;
  }

  /** A row whose field count is not two more than a multiple of three is rejected first. */
  lemma FieldCountCheckedFirst(rec: seq<string>, ixrec: nat, fpath: string)
    requires (|rec| - 2) % 3 != 0
    ensures ParseRow(rec, ixrec, fpath) == Failure(InvalidFieldCount(ixrec, fpath))
  {
  }

  /** With a good field count, a bad timestamp is rejected before any group is looked at. */
  lemma TimestampCheckedSecond(rec: seq<string>, ixrec: nat, fpath: string)
    requires (|rec| - 2) % 3 == 0
    ensures |rec| >= 2
    ensures ParseTimestamp(rec[0]).None? ==>
      ParseRow(rec, ixrec, fpath) == Failure(InvalidDateTime(ixrec, fpath))
  {
  }

  /**
   * With a good field count and timestamp, the earliest group that is not
   * three integers decides the error, whether or not its attribute is watched.
   */
  lemma FirstBadGroupWins(rec: seq<string>, k: nat, ixrec: nat, fpath: string)
    requires (|rec| - 2) % 3 == 0 && |rec| >= 2 && ParseTimestamp(rec[0]).Some?
    requires 3 * k + 4 <= |rec| && GroupAt(rec, k).None?
    requires forall j :: 0 <= j < k ==> GroupAt(rec, j).Some?
    ensures ParseRow(rec, ixrec, fpath) == Failure(InvalidAttributes(k + 1, ixrec, fpath))
  {
    var gs := GroupResults(rec);
    assert k < |gs| && gs[k].None?;
    EarliestBadGroup(gs, k, ixrec, fpath);
  }

  /** Python's `%` is never negative here, so rows of zero or one field fail the count check. */
  lemma ShortRowsRejected(rec: seq<string>, ixrec: nat, fpath: string)
    requires |rec| < 2
    ensures ParseRow(rec, ixrec, fpath) == Failure(InvalidFieldCount(ixrec, fpath))
  {
    assert (|rec| - 2) % 3 != 0;
  }

  /** The reserved last field `rec[-1]` is never read. */
  lemma LastFieldIgnored(rec: seq<string>, x: string, ixrec: nat, fpath: string)
    requires |rec| >= 2
    ensures ParseRow(rec[|rec| - 1 := x], ixrec, fpath) == ParseRow(rec, ixrec, fpath)
  {
    var rec' := rec[|rec| - 1 := x];
    assert rec'[0] == rec[0];
    if (|rec| - 2) % 3 == 0 {
      forall k | 0 <= k < (|rec| - 2) / 3
        ensures GroupAt(rec', k) == GroupAt(rec, k)
      {
        assert rec'[3 * k + 1] == rec[3 * k + 1] && rec'[3 * k + 2] == rec[3 * k + 2] && rec'[3 * k + 3] == rec[3 * k + 3];
      }
      assert GroupResults(rec') == GroupResults(rec);
    }
  }
}
