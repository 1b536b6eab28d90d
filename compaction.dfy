/**
 * The shortened log of `SMART_Log.__init__`: when asked for, a log longer
 * than `MAX_LOG_RECORDS` keeps its first record and its most recent ones,
 * and the deltas of the survivors are measured again, from the first record.
 */
module Compaction {
  import opened Records

  /** `MAX_LOG_RECORDS`: the length of a shortened log. */
  const MaxLogRecords: nat := 20

  /** One attribute of a surviving record, measured from `base` when `base` has it. */
  function RebaseAttr(a: int, x: SmartAttr, base: map<int, SmartAttr>): SmartAttr
  {
    if a in base then ComputeDeltas(x, base[a]).0 else x
  }

  /**
   * The inner loop of the compaction: every attribute of `rec` that the
   * first record also has gets its deltas measured from the first record.
   */
  function Rebase(rec: LogRecord, base: map<int, SmartAttr>): (r: LogRecord)
    ensures r.timestamp == rec.timestamp && r.attrs.Keys == rec.attrs.Keys
    ensures forall a :: a in r.attrs ==> r.attrs[a].value == rec.attrs[a].value && r.attrs[a].raw == rec.attrs[a].raw
    ensures forall a :: a in r.attrs && a in base ==>
      && r.attrs[a].valdelta == rec.attrs[a].value - base[a].value
      && r.attrs[a].rawdelta == rec.attrs[a].raw - base[a].raw
    ensures forall a :: a in r.attrs && a !in base ==> r.attrs[a] == rec.attrs[a]
  {
    LogRecord(rec.timestamp, map a | a in rec.attrs :: RebaseAttr(a, rec.attrs[a], base))
  }

  /** The survivors of `del log[1:-(MAX_LOG_RECORDS - 1)]`. */
  function Survivors(log: seq<LogRecord>): (kept: seq<LogRecord>)
    requires |log| > MaxLogRecords
    ensures |kept| == MaxLogRecords
    ensures kept[0] == log[0]
    ensures forall i :: 1 <= i < MaxLogRecords ==> kept[i] == log[|log| - MaxLogRecords + i]
  {
    log[..1] + log[|log| - (MaxLogRecords - 1)..]
  }

  /** The log after the compaction step, with `shorten` the `-r` option. */
  function Shortened(log: seq<LogRecord>, shorten: bool): (r: seq<LogRecord>)
    ensures |r| == if shorten && |log| > MaxLogRecords then MaxLogRecords else |log|
    ensures log != [] ==> r[0] == log[0]
  {
    if shorten && |log| > MaxLogRecords then
      var kept := Survivors(log);
      [kept[0]] + seq(|kept| - 1, i requires 0 <= i < |kept| - 1 => Rebase(kept[i + 1], kept[0].attrs))
    else log
  }

  /** Without `-r`, or when the log is short enough, nothing changes. */
  lemma ShortLogUnchanged(log: seq<LogRecord>, shorten: bool)
    requires !shorten || |log| <= MaxLogRecords
    ensures Shortened(log, shorten) == log
  {
  }

  /**
   * Record `i` of a shortened log (after the first) is record
   * `|log| - MAX_LOG_RECORDS + i` of the original: same time, same
   * attributes, same values; each delta is now the change since the first
   * record where the first record has that attribute, and is untouched
   * where it has not.
   */
  lemma ShortenedSurvivor(log: seq<LogRecord>, i: nat)
    requires |log| > MaxLogRecords && 1 <= i < MaxLogRecords
    ensures var r, src := Shortened(log, true)[i], log[|log| - MaxLogRecords + i];
      && r.timestamp == src.timestamp
      && r.attrs.Keys == src.attrs.Keys
      && forall a :: a in r.attrs ==> r.attrs[a].value == src.attrs[a].value && r.attrs[a].raw == src.attrs[a].raw
  {
    SurvivorIsRebased(log, i);
  }

  /** The deltas of a survivor, for an attribute the first record also has. */
  lemma ShortenedDeltasFromFirst(log: seq<LogRecord>, i: nat, a: int)
    requires |log| > MaxLogRecords && 1 <= i < MaxLogRecords
    requires a in log[|log| - MaxLogRecords + i].attrs && a in log[0].attrs
    ensures var r, first := Shortened(log, true)[i], log[0].attrs[a];
      && a in r.attrs
      && r.attrs[a].valdelta == r.attrs[a].value - first.value
      && r.attrs[a].rawdelta == r.attrs[a].raw - first.raw
  {
    SurvivorIsRebased(log, i);
  }

  /** The deltas of a survivor, for an attribute the first record lacks. */
  lemma ShortenedDeltasKept(log: seq<LogRecord>, i: nat, a: int)
    requires |log| > MaxLogRecords && 1 <= i < MaxLogRecords
    requires a in log[|log| - MaxLogRecords + i].attrs && a !in log[0].attrs
    ensures var r := Shortened(log, true)[i];
      a in r.attrs && r.attrs[a] == log[|log| - MaxLogRecords + i].attrs[a]
  {
    SurvivorIsRebased(log, i);
  }

  lemma SurvivorIsRebased(log: seq<LogRecord>, i: nat)
    requires |log| > MaxLogRecords && 1 <= i < MaxLogRecords
    ensures Shortened(log, true)[i] == Rebase(log[|log| - MaxLogRecords + i], log[0].attrs)
  {
    var kept := Survivors(log);
    assert kept[0] == log[0];
    assert kept[i] == log[|log| - MaxLogRecords + i];
  }

  /** Shortening keeps every timestamp valid. */
  lemma ShortenedKeepsTimestampsValid(log: seq<LogRecord>, shorten: bool)
    requires ValidTimestamps(log)
    ensures ValidTimestamps(Shortened(log, shorten))
  {
    if shorten && |log| > MaxLogRecords {
      forall i | 1 <= i < MaxLogRecords
        ensures Shortened(log, true)[i].timestamp == log[|log| - MaxLogRecords + i].timestamp
      {
        ShortenedSurvivor(log, i);
      }
    }
  }

  /** Shortening a shortened log changes nothing. */
  lemma ShortenedIdempotent(log: seq<LogRecord>, shorten: bool)
    ensures Shortened(Shortened(log, shorten), shorten) == Shortened(log, shorten)
  {
  }
}
