/**
 * Change detection over a whole attribute log: the loop in `SMART_Log.__init__`
 * that threads the `lastvalues` table and the `firstrecord` flag through the
 * rows and decides which rows are kept.
 *
 * `Replay` is that loop as a function of the parsed rows. `RefLog` says the
 * same thing without the table: it reads every delta off the history of
 * watched groups seen so far. `ReplayMatchesReference` proves the two equal.
 */
module ChangeDetection {
  import opened Wrappers
  import opened Records
  import Timestamps

  // ---------------------------------------------------------------------
  // Reading all rows: the first row that fails decides the error.
  // ---------------------------------------------------------------------

  /** Each row parsed on its own; rows are numbered from 1. */
  function RowResults(rows: seq<seq<string>>, fpath: string): (rs: seq<Result<Row, LogError>>)
    ensures |rs| == |rows|
    ensures forall i :: 0 <= i < |rows| ==> rs[i] == ParseRow(rows[i], i + 1, fpath)
  {
    seq(|rows|, i requires 0 <= i < |rows| => ParseRow(rows[i], i + 1, fpath))
  }

  /** The parsed rows in order, or the error of the first row that failed. */
  function CollectRows(rs: seq<Result<Row, LogError>>): (r: Result<seq<Row>, LogError>)
    ensures r.Success? <==> forall i :: 0 <= i < |rs| ==> rs[i].Success?
    ensures r.Success? ==> |r.value| == |rs| && forall i :: 0 <= i < |rs| ==> rs[i] == Success(r.value[i])
  {
    if rs == [] then Success([])
    else
      match CollectRows(rs[..|rs| - 1])
      case Failure(e) => Failure(e)
      case Success(prs) =>
        match rs[|rs| - 1]
        case Failure(e) => Failure(e)
        case Success(row) => Success(prs + [row])
  }

  /** All rows of a log file, parsed; any bad row voids the whole log. */
  function ParseRows(rows: seq<seq<string>>, fpath: string): Result<seq<Row>, LogError>
  {
    CollectRows(RowResults(rows, fpath))
  }

  /** Once a row fails after good rows, every longer read fails with its error. */
  lemma {:induction false} FirstRowErrorWins(rs: seq<Result<Row, LogError>>, i: nat)
    requires i < |rs| && CollectRows(rs[..i]).Success? && rs[i].Failure?
    ensures CollectRows(rs) == Failure(rs[i].error)
    decreases |rs|
  {
    if |rs| == i + 1 {
      assert rs[..|rs| - 1] == rs[..i];
    } else {
      var init := rs[..|rs| - 1];
      assert init[..i] == rs[..i];
      FirstRowErrorWins(init, i);
    }
  }

  // ---------------------------------------------------------------------
  // The loop as the viewer runs it, with the `lastvalues` table.
  // ---------------------------------------------------------------------

  /** The state of the group loop of one row: `lastvalues`, `adict` and `ndeltas`. */
  datatype ScanState = ScanState(last: map<int, SmartAttr>, adict: map<int, SmartAttr>, ndeltas: nat)

  /** One group of three: skip it if unwatched, otherwise compare it with `lastvalues`. */
  function StepGroup(st: ScanState, g: Triple, watch: set<int>): ScanState
  {
    if g.id !in watch then st
    else
      var cur := SmartAttr(g.value, 0, g.raw, 0);
      if g.id in st.last then
        var (c, changed) := ComputeDeltas(cur, st.last[g.id]);
        ScanState(if changed then st.last[g.id := c] else st.last,
                  st.adict[g.id := c],
                  if changed then st.ndeltas + 1 else st.ndeltas)
      else
        ScanState(st.last[g.id := cur], st.adict[g.id := cur], st.ndeltas)
  }

  /**
   * An unwatched group changes nothing. A watched one enters `adict` and
   * `lastvalues` with its value and raw value, leaves every other
   * remembered attribute alone, and counts as a change exactly when its
   * attribute was remembered with a different (value, raw) pair.
   */
  lemma StepGroupEffect(st: ScanState, g: Triple, watch: set<int>)
    ensures var r := StepGroup(st, g, watch);
      && (g.id !in watch ==> r == st)
      && (g.id in watch ==>
        && r.adict.Keys == st.adict.Keys + {g.id} && r.last.Keys == st.last.Keys + {g.id}
        && r.adict[g.id].value == g.value && r.adict[g.id].raw == g.raw
        && r.last[g.id].value == g.value && r.last[g.id].raw == g.raw
        && (forall a :: a in st.last && a != g.id ==> r.last[a] == st.last[a])
        && r.ndeltas == st.ndeltas + (if g.id in st.last && (st.last[g.id].value, st.last[g.id].raw) != (g.value, g.raw) then 1 else 0))
  {
  }

  /** The groups of one row, left to right. */
  function ScanGroups(st: ScanState, gs: seq<Triple>, watch: set<int>): ScanState
  {
    if gs == [] then st
    else StepGroup(ScanGroups(st, gs[..|gs| - 1], watch), gs[|gs| - 1], watch)
  }

  /**
   * Scanning a row only adds watched attributes to `lastvalues` and
   * `adict`, and counts at most one change per group.
   */
  lemma {:induction false} ScanGroupsBounds(st: ScanState, gs: seq<Triple>, watch: set<int>)
    ensures var r := ScanGroups(st, gs, watch);
      && st.last.Keys <= r.last.Keys <= st.last.Keys + watch
      && r.adict.Keys <= st.adict.Keys + watch
      && st.ndeltas <= r.ndeltas <= st.ndeltas + |gs|
  {
    if gs != [] {
      ScanGroupsBounds(st, gs[..|gs| - 1], watch);
      StepGroupEffect(ScanGroups(st, gs[..|gs| - 1], watch), gs[|gs| - 1], watch);
    }
  }

  /** What the row loop carries: the log so far, `lastvalues`, `firstrecord`, `nrawrecords`. */
  datatype BuildState = BuildState(log: seq<LogRecord>, last: map<int, SmartAttr>, firstrecord: bool, nrawrecords: nat)

  const Initial := BuildState([], map[], true, 0)

  /** One row: scan its groups, count it, and append it if it is the first or something changed. */
  function StepRow(st: BuildState, row: Row, watch: set<int>): BuildState
  {
    var sc := ScanGroups(ScanState(st.last, map[], 0), row.groups, watch);
    if st.firstrecord || sc.ndeltas > 0 then
      BuildState(st.log + [LogRecord(row.timestamp, sc.adict)], sc.last, false, st.nrawrecords + 1)
    else
      BuildState(st.log, sc.last, st.firstrecord, st.nrawrecords + 1)
  }

  /**
   * A row is always counted and ends `firstrecord`; the log keeps its
   * records and gains at most one, always for the first row, and a record
   * it gains carries the row's time and only watched attributes.
   */
  lemma StepRowEffect(st: BuildState, row: Row, watch: set<int>)
    ensures var r := StepRow(st, row, watch);
      && r.nrawrecords == st.nrawrecords + 1 && !r.firstrecord
      && |st.log| <= |r.log| <= |st.log| + 1 && r.log[..|st.log|] == st.log
      && (st.firstrecord ==> |r.log| == |st.log| + 1)
      && (|r.log| == |st.log| + 1 ==> r.log[|st.log|].timestamp == row.timestamp && r.log[|st.log|].attrs.Keys <= watch)
  {
    ScanGroupsBounds(ScanState(st.last, map[], 0), row.groups, watch);
    var r := StepRow(st, row, watch);
    assert r.log[..|st.log|] == st.log;
  }

  /** The row loop over parsed rows, in file order. */
  function Replay(prs: seq<Row>, watch: set<int>): BuildState
  {
    if prs == [] then Initial
    else StepRow(Replay(prs[..|prs| - 1], watch), prs[|prs| - 1], watch)
  }

  /**
   * After the row loop every row is counted, `firstrecord` holds only for
   * an empty file, no more records are kept than rows read, and the first
   * row is always kept.
   */
  lemma {:induction false} ReplayShape(prs: seq<Row>, watch: set<int>)
    ensures var r := Replay(prs, watch);
      && r.nrawrecords == |prs|
      && (r.firstrecord <==> prs == [])
      && |r.log| <= |prs|
      && (prs != [] ==> |r.log| >= 1 && r.log[0].timestamp == prs[0].timestamp)
  {
    if prs != [] {
      var init := prs[..|prs| - 1];
      ReplayShape(init, watch);
      StepRowEffect(Replay(init, watch), prs[|prs| - 1], watch);
      if init != [] {
        assert init[0] == prs[0];
        var r0 := Replay(init, watch);
        assert Replay(prs, watch).log[..|r0.log|] == r0.log;
        assert Replay(prs, watch).log[0] == r0.log[0];
      }
    }
  }

  // ---------------------------------------------------------------------
  // The reference: deltas read off the history of watched groups.
  // ---------------------------------------------------------------------

  /** The groups of a row whose attribute is watched, in order. */
  function Watched(gs: seq<Triple>, watch: set<int>): (ws: seq<Triple>)
    ensures |ws| <= |gs|
    ensures forall j :: 0 <= j < |ws| ==> ws[j].id in watch
    ensures forall j :: 0 <= j < |gs| && gs[j].id in watch ==> gs[j] in ws
  {
    if gs == [] then []
    else Watched(gs[..|gs| - 1], watch) + (if gs[|gs| - 1].id in watch then [gs[|gs| - 1]] else [])
  }

  /** Every watched group of every row, in file order. */
  function History(prs: seq<Row>, watch: set<int>): seq<Triple>
  {
    if prs == [] then []
    else History(prs[..|prs| - 1], watch) + Watched(prs[|prs| - 1].groups, watch)
  }

  /** For each attribute seen in `s`, the value and raw value of its last occurrence. */
  function Latest(s: seq<Triple>): map<int, (int, int)>
  {
    if s == [] then map[]
    else Latest(s[..|s| - 1])[s[|s| - 1].id := (s[|s| - 1].value, s[|s| - 1].raw)]
  }

  /** A group read after `seen`: its deltas from the attribute's previous occurrence, zero on the first. */
  function Observe(g: Triple, seen: map<int, (int, int)>): SmartAttr
  {
    if g.id in seen then SmartAttr(g.value, g.value - seen[g.id].0, g.raw, g.raw - seen[g.id].1)
    else SmartAttr(g.value, 0, g.raw, 0)
  }

  /** A group that changes its attribute: seen before, with another value or raw value. */
  predicate Differs(g: Triple, seen: map<int, (int, int)>)
  {
    g.id in seen && seen[g.id] != (g.value, g.raw)
  }

  /** How many of the watched groups `ws` of a row change their attribute, after history `prior`. */
  function CountChanges(prior: seq<Triple>, ws: seq<Triple>): nat
  {
    if ws == [] then 0
    else
      var k := |ws| - 1;
      CountChanges(prior, ws[..k]) + (if Differs(ws[k], Latest(prior + ws[..k])) then 1 else 0)
  }

  /** The attributes of a row: for each ID, its last group in the row, observed after what came before it. */
  function RowAttrs(prior: seq<Triple>, ws: seq<Triple>): map<int, SmartAttr>
  {
    if ws == [] then map[]
    else
      var k := |ws| - 1;
      RowAttrs(prior, ws[..k])[ws[k].id := Observe(ws[k], Latest(prior + ws[..k]))]
  }

  /** A row is kept if it is the first, or if one of its watched groups changes its attribute. */
  predicate Kept(prior: seq<Row>, row: Row, watch: set<int>)
  {
    prior == [] || CountChanges(History(prior, watch), Watched(row.groups, watch)) > 0
  }

  /** The record a row becomes when it is kept. */
  function RecordOf(prior: seq<Row>, row: Row, watch: set<int>): LogRecord
  {
    LogRecord(row.timestamp, RowAttrs(History(prior, watch), Watched(row.groups, watch)))
  }

  /** The kept rows' records, in file order. */
  function RefLog(prs: seq<Row>, watch: set<int>): seq<LogRecord>
  {
    if prs == [] then []
    else
      var prior := prs[..|prs| - 1];
      RefLog(prior, watch) + (if Kept(prior, prs[|prs| - 1], watch) then [RecordOf(prior, prs[|prs| - 1], watch)] else [])
  }

  /** The positions of the kept rows. */
  function KeptIndices(prs: seq<Row>, watch: set<int>): seq<nat>
  {
    if prs == [] then []
    else
      var prior := prs[..|prs| - 1];
      KeptIndices(prior, watch) + (if Kept(prior, prs[|prs| - 1], watch) then [|prs| - 1] else [])
  }

  /** The value and raw value of each entry of `lastvalues`. */
  function Project(m: map<int, SmartAttr>): map<int, (int, int)>
  {
    map k | k in m :: (m[k].value, m[k].raw)
  }

  // ---------------------------------------------------------------------
  // The table-based loop computes the reference.
  // ---------------------------------------------------------------------

  lemma ProjectUpdate(m: map<int, SmartAttr>, k: int, a: SmartAttr)
    ensures Project(m[k := a]) == Project(m)[k := (a.value, a.raw)]
  {
  }

  /** One watched group against the table: it is observed against the table's values. */
  lemma StepGroupObserves(st: ScanState, seen: map<int, (int, int)>, g: Triple, watch: set<int>)
    requires g.id in watch && Project(st.last) == seen
    ensures var st' := StepGroup(st, g, watch);
      && Project(st'.last) == seen[g.id := (g.value, g.raw)]
      && st'.adict == st.adict[g.id := Observe(g, seen)]
      && st'.ndeltas == st.ndeltas + (if Differs(g, seen) then 1 else 0)
  {
    var cur := SmartAttr(g.value, 0, g.raw, 0);
    if g.id in st.last {
      assert g.id in seen && seen[g.id] == (st.last[g.id].value, st.last[g.id].raw);
      var c := ComputeDeltas(cur, st.last[g.id]).0;
      if ComputeDeltas(cur, st.last[g.id]).1 {
        ProjectUpdate(st.last, g.id, c);
      } else {
        assert seen[g.id] == (g.value, g.raw);
        assert seen[g.id := (g.value, g.raw)] == seen;
      }
    } else {
      ProjectUpdate(st.last, g.id, cur);
    }
  }

  /** The history-based definitions, one group further. */
  lemma HistoryOneMore(prior: seq<Triple>, ws: seq<Triple>, g: Triple)
    ensures var seen := Latest(prior + ws);
      && Latest(prior + (ws + [g])) == seen[g.id := (g.value, g.raw)]
      && RowAttrs(prior, ws + [g]) == RowAttrs(prior, ws)[g.id := Observe(g, seen)]
      && CountChanges(prior, ws + [g]) == CountChanges(prior, ws) + (if Differs(g, seen) then 1 else 0)
  {
    var ws' := ws + [g];
    assert ws'[..|ws'| - 1] == ws;
    assert prior + ws' == (prior + ws) + [g];
    assert (prior + ws')[..|prior + ws'| - 1] == prior + ws;
  }

  /** The group loop of one row computes the history-based record, change count and table. */
  lemma {:induction false} ScanMatchesHistory(last: map<int, SmartAttr>, prior: seq<Triple>, gs: seq<Triple>, watch: set<int>)
    requires Project(last) == Latest(prior)
    ensures var sc := ScanGroups(ScanState(last, map[], 0), gs, watch);
      && Project(sc.last) == Latest(prior + Watched(gs, watch))
      && sc.adict == RowAttrs(prior, Watched(gs, watch))
      && sc.ndeltas == CountChanges(prior, Watched(gs, watch))
  {
    if gs == [] {
      assert prior + [] == prior;
    } else {
      var init := gs[..|gs| - 1];
      var g := gs[|gs| - 1];
      ScanMatchesHistory(last, prior, init, watch);
      var st := ScanGroups(ScanState(last, map[], 0), init, watch);
      assert ScanGroups(ScanState(last, map[], 0), gs, watch) == StepGroup(st, g, watch);
      if g.id in watch {
        assert Watched(gs, watch) == Watched(init, watch) + [g];
        HistoryOneMore(prior, Watched(init, watch), g);
        StepGroupObserves(st, Latest(prior + Watched(init, watch)), g, watch);
      } else {
        assert Watched(gs, watch) == Watched(init, watch) + [];
        assert Watched(init, watch) + [] == Watched(init, watch);
      }
    }
  }

  /**
   * The row loop with its `lastvalues` table builds exactly the reference log;
   * the table holds the last occurrence of every watched attribute; the flag
   * `firstrecord` is set until a row has been read; every row is counted.
   */
  lemma {:induction false} ReplayMatchesReference(prs: seq<Row>, watch: set<int>)
    ensures Replay(prs, watch).log == RefLog(prs, watch)
    ensures Project(Replay(prs, watch).last) == Latest(History(prs, watch))
    ensures Replay(prs, watch).firstrecord <==> prs == []
    ensures Replay(prs, watch).nrawrecords == |prs|
  {
    if prs != [] {
      var prior := prs[..|prs| - 1];
      var row := prs[|prs| - 1];
      ReplayMatchesReference(prior, watch);
      var st := Replay(prior, watch);
      ScanMatchesHistory(st.last, History(prior, watch), row.groups, watch);
      assert Replay(prs, watch) == StepRow(st, row, watch);
      assert History(prs, watch) == History(prior, watch) + Watched(row.groups, watch);
    }
  }

  // ---------------------------------------------------------------------
  // What the reference promises.
  // ---------------------------------------------------------------------

  /** Each kept position is a row position, and the positions increase. */
  lemma {:induction false} KeptIndicesIncrease(prs: seq<Row>, watch: set<int>)
    ensures forall k :: 0 <= k < |KeptIndices(prs, watch)| ==> KeptIndices(prs, watch)[k] < |prs|
    ensures forall k, k' :: 0 <= k < k' < |KeptIndices(prs, watch)| ==>
      KeptIndices(prs, watch)[k] < KeptIndices(prs, watch)[k']
  {
    if prs != [] {
      KeptIndicesIncrease(prs[..|prs| - 1], watch);
    }
  }

  /** A prefix of a prefix, and its elements, are those of the whole. */
  lemma PrefixOfPrefix<T>(s: seq<T>, m: nat, i: nat)
    requires i < m <= |s|
    ensures s[..m][..i] == s[..i] && s[..m][i] == s[i]
  {
  }

  /** A row position is kept exactly when that row is kept after the rows before it. */
  lemma {:induction false} KeptIndicesMembership(prs: seq<Row>, watch: set<int>, i: nat)
    requires i < |prs|
    ensures i in KeptIndices(prs, watch) <==> Kept(prs[..i], prs[i], watch)
  {
    var n := |prs|;
    var prior := prs[..n - 1];
    var ks := KeptIndices(prior, watch);
    var tail: seq<nat> := if Kept(prior, prs[n - 1], watch) then [n - 1] else [];
    assert KeptIndices(prs, watch) == ks + tail;
    assert i in ks + tail <==> i in ks || i in tail;
    if i < n - 1 {
      KeptIndicesMembership(prior, watch, i);
      PrefixOfPrefix(prs, n - 1, i);
      assert i !in tail;
      assert i in ks <==> Kept(prs[..i], prs[i], watch);
    } else {
      KeptIndicesIncrease(prior, watch);
      assert i !in ks;
      assert prs[..i] == prior;
      assert i in tail <==> Kept(prs[..i], prs[i], watch);
    }
  }

  /** The log's k-th record is the record of the row at the k-th kept position. */
  lemma {:induction false} RefLogAtKeptIndices(prs: seq<Row>, watch: set<int>)
    ensures |KeptIndices(prs, watch)| == |RefLog(prs, watch)|
    ensures forall k :: 0 <= k < |KeptIndices(prs, watch)| ==>
      var i := KeptIndices(prs, watch)[k];
      i < |prs| && RefLog(prs, watch)[k] == RecordOf(prs[..i], prs[i], watch)
  {
    KeptIndicesIncrease(prs, watch);
    if prs != [] {
      var n := |prs|;
      var prior := prs[..n - 1];
      RefLogAtKeptIndices(prior, watch);
      KeptIndicesIncrease(prior, watch);
      var ks0 := KeptIndices(prior, watch);
      forall k | 0 <= k < |ks0|
        ensures prior[..ks0[k]] == prs[..ks0[k]] && prior[ks0[k]] == prs[ks0[k]]
      {
      }
      assert prs[..n - 1] == prior;
    }
  }

  /** The first row read is always kept, as the log's first record, whatever it holds. */
  lemma FirstRowKept(prs: seq<Row>, watch: set<int>)
    requires prs != []
    ensures |RefLog(prs, watch)| >= 1
    ensures RefLog(prs, watch)[0] == RecordOf([], prs[0], watch)
  {
    RefLogAtKeptIndices(prs, watch);
    KeptIndicesIncrease(prs, watch);
    KeptIndicesMembership(prs, watch, 0);
    var ks := KeptIndices(prs, watch);
    assert prs[..0] == [];
    assert 0 in ks;
    var j :| 0 <= j < |ks| && ks[j] == 0;
    assert ks[0] == 0;
  }

  /** `Latest` remembers, for each attribute, its last occurrence. */
  lemma {:induction false} LatestIsLastOccurrence(s: seq<Triple>, a: int)
    ensures a in Latest(s) <==> exists i :: 0 <= i < |s| && s[i].id == a
    ensures a in Latest(s) ==> exists i :: IsLastOccurrence(s, i, a) && Latest(s)[a] == (s[i].value, s[i].raw)
  {
    if s != [] {
      var n := |s|;
      var init := s[..n - 1];
      LatestIsLastOccurrence(init, a);
      if s[n - 1].id == a {
        assert IsLastOccurrence(s, n - 1, a);
      } else {
        if a in Latest(init) {
          var i :| IsLastOccurrence(init, i, a) && Latest(init)[a] == (init[i].value, init[i].raw);
          assert s[i] == init[i];
          assert IsLastOccurrence(s, i, a);
        }
        if exists i :: 0 <= i < n && s[i].id == a {
          var i :| 0 <= i < n && s[i].id == a;
          assert init[i].id == a;
        }
      }
    }
  }

  /** `s[i]` is the last element of `s` about attribute `a`. */
  predicate IsLastOccurrence(s: seq<Triple>, i: int, a: int)
  {
    0 <= i < |s| && s[i].id == a && forall j :: i < j < |s| ==> s[j].id != a
  }

  /**
   * A group's deltas are its value and raw value minus those of the previous
   * occurrence of its attribute, kept row or not; zero when there is none.
   */
  lemma DeltasFromPreviousOccurrence(g: Triple, s: seq<Triple>)
    ensures (forall i :: 0 <= i < |s| ==> s[i].id != g.id) ==>
      Observe(g, Latest(s)) == SmartAttr(g.value, 0, g.raw, 0)
    ensures forall i :: IsLastOccurrence(s, i, g.id) ==>
      Observe(g, Latest(s)) == SmartAttr(g.value, g.value - s[i].value, g.raw, g.raw - s[i].raw)
  {
    LatestIsLastOccurrence(s, g.id);
    forall i | IsLastOccurrence(s, i, g.id)
      ensures Observe(g, Latest(s)) == SmartAttr(g.value, g.value - s[i].value, g.raw, g.raw - s[i].raw)
    {
      var i' :| IsLastOccurrence(s, i', g.id) && Latest(s)[g.id] == (s[i'].value, s[i'].raw);
      assert i == i';
    }
  }

  /** A row's record has a key for exactly the attributes of its watched groups. */
  lemma {:induction false} RowAttrsKeys(prior: seq<Triple>, ws: seq<Triple>, a: int)
    ensures a in RowAttrs(prior, ws) <==> exists j :: 0 <= j < |ws| && ws[j].id == a
  {
    if ws != [] {
      var k := |ws| - 1;
      var init := ws[..k];
      RowAttrsKeys(prior, init, a);
      if a in RowAttrs(prior, init) {
        var j :| 0 <= j < |init| && init[j].id == a;
        assert ws[j] == init[j];
      }
      if ws[k].id != a && exists j :: 0 <= j < |ws| && ws[j].id == a {
        var j :| 0 <= j < |ws| && ws[j].id == a;
        assert init[j].id == a;
      }
    }
  }

  /**
   * For each attribute, a row's record holds its last group in the row,
   * observed against everything read before that group.
   */
  lemma {:induction false} RowAttrsLastOccurrence(prior: seq<Triple>, ws: seq<Triple>, j: nat)
    requires j < |ws| && IsLastOccurrence(ws, j, ws[j].id)
    ensures ws[j].id in RowAttrs(prior, ws)
    ensures RowAttrs(prior, ws)[ws[j].id] == Observe(ws[j], Latest(prior + ws[..j]))
  {
    var k := |ws| - 1;
    var init := ws[..k];
    if j < k {
      assert ws[j] == init[j] && ws[..j] == init[..j];
      assert IsLastOccurrence(init, j, init[j].id);
      RowAttrsLastOccurrence(prior, init, j);
    }
  }

  /** A group that differs from its attribute's previous occurrence is counted as a change. */
  lemma {:induction false} DifferenceIsCounted(prior: seq<Triple>, ws: seq<Triple>, j: nat)
    requires j < |ws| && Differs(ws[j], Latest(prior + ws[..j]))
    ensures CountChanges(prior, ws) > 0
  {
    var k := |ws| - 1;
    var init := ws[..k];
    if j < k {
      assert ws[j] == init[j] && ws[..j] == init[..j];
      DifferenceIsCounted(prior, init, j);
    }
  }

  /** A row counts a change only if one of its watched groups differs from the attribute's previous occurrence. */
  lemma {:induction false} CountedChangeExists(prior: seq<Triple>, ws: seq<Triple>)
    requires CountChanges(prior, ws) > 0
    ensures exists j :: 0 <= j < |ws| && Differs(ws[j], Latest(prior + ws[..j]))
  {
    var k := |ws| - 1;
    var init := ws[..k];
    if CountChanges(prior, init) > 0 {
      CountedChangeExists(prior, init);
      var j :| 0 <= j < |init| && Differs(init[j], Latest(prior + init[..j]));
      assert ws[j] == init[j] && ws[..j] == init[..j];
    }
  }

  /** Only watched attributes ever become keys of a record. */
  lemma OnlyWatchedAttributes(prs: seq<Row>, watch: set<int>)
    ensures forall k :: 0 <= k < |RefLog(prs, watch)| ==> RefLog(prs, watch)[k].attrs.Keys <= watch
  {
    RefLogAtKeptIndices(prs, watch);
    var ks := KeptIndices(prs, watch);
    forall k, a | 0 <= k < |ks| && a in RefLog(prs, watch)[k].attrs
      ensures a in watch
    {
      var i := ks[k];
      var ws := Watched(prs[i].groups, watch);
      RowAttrsKeys(History(prs[..i], watch), ws, a);
    }
  }

  /**
   * The worked example: attribute 5 reads (100, 0), (100, 0), (99, 1); the
   * middle row changes nothing and is dropped, the last carries deltas (-1, +1).
   */
  lemma RetentionExample(t1: Timestamps.DateTime, t2: Timestamps.DateTime, t3: Timestamps.DateTime)
    ensures var prs := [Row(t1, [Triple(5, 100, 0)]), Row(t2, [Triple(5, 100, 0)]), Row(t3, [Triple(5, 99, 1)])];
      Replay(prs, {5}).log == [LogRecord(t1, map[5 := SmartAttr(100, 0, 0, 0)]),
                               LogRecord(t3, map[5 := SmartAttr(99, -1, 1, 1)])]
  {
    var r1, r2, r3 := Row(t1, [Triple(5, 100, 0)]), Row(t2, [Triple(5, 100, 0)]), Row(t3, [Triple(5, 99, 1)]);
    var prs := [r1, r2, r3];
    assert prs[..2] == [r1, r2] && [r1, r2][..1] == [r1] && [r1][..0] == [];
    var g1 := [Triple(5, 100, 0)];
    assert g1[..0] == [];
    var g3 := [Triple(5, 99, 1)];
    assert g3[..0] == [];
    var a1 := SmartAttr(100, 0, 0, 0);
    var st0 := ScanState(map[], map[], 0);
    assert ScanGroups(st0, g1, {5}) == ScanState(map[5 := a1], map[5 := a1], 0);
    var s1 := Replay([r1], {5});
    assert Replay([r1][..0], {5}) == Initial;
    assert s1.log == [LogRecord(t1, map[5 := a1])];
    assert s1.last == map[5 := a1];
    var s2 := Replay([r1, r2], {5});
    var st1 := ScanState(map[5 := a1], map[], 0);
    assert ScanGroups(st1, g1, {5}) == ScanState(map[5 := a1], map[5 := a1], 0);
    assert s2.log == s1.log && s2.last == s1.last && !s2.firstrecord;
  }

  /** Every timestamp of the log comes from a parsed row. */
  lemma {:induction false} ReplayKeepsTimestampsValid(prs: seq<Row>, watch: set<int>)
    requires forall i :: 0 <= i < |prs| ==> Timestamps.ValidDateTime(prs[i].timestamp)
    ensures ValidTimestamps(Replay(prs, watch).log)
  {
    if prs != [] {
      ReplayKeepsTimestampsValid(prs[..|prs| - 1], watch);
    }
  }

  /** Rows that were read carry valid timestamps. */
  lemma ParsedRowsHaveValidTimestamps(rows: seq<seq<string>>, fpath: string)
    requires ParseRows(rows, fpath).Success?
    ensures var prs := ParseRows(rows, fpath).value;
      forall i :: 0 <= i < |prs| ==> Timestamps.ValidDateTime(prs[i].timestamp)
  {
    var prs := ParseRows(rows, fpath).value;
    var rs := RowResults(rows, fpath);
    forall i | 0 <= i < |prs|
      ensures Timestamps.ValidDateTime(prs[i].timestamp)
    {
      assert rs[i] == Success(prs[i]);
      assert Timestamps.ParseTimestamp(rows[i][0]) == Some(prs[i].timestamp);
    }
  }

  /** The first `|prs|` rows of the file parsed, giving `prs`. */
  predicate PrefixParsed(rows: seq<seq<string>>, fpath: string, prs: seq<Row>)
  {
    |prs| <= |rows| && forall i :: 0 <= i < |prs| ==> ParseRow(rows[i], i + 1, fpath) == Success(prs[i])
  }

  lemma PrefixParsedExtend(rows: seq<seq<string>>, fpath: string, prs: seq<Row>, row: Row)
    requires PrefixParsed(rows, fpath, prs) && |prs| < |rows|
    requires ParseRow(rows[|prs|], |prs| + 1, fpath) == Success(row)
    ensures PrefixParsed(rows, fpath, prs + [row])
  {
  }

  /** Rows that all parsed, in order, are what `ParseRows` returns. */
  lemma ParseRowsAllGood(rows: seq<seq<string>>, fpath: string, prs: seq<Row>)
    requires PrefixParsed(rows, fpath, prs) && |prs| == |rows|
    ensures ParseRows(rows, fpath) == Success(prs)
  {
    var rs := RowResults(rows, fpath);
    assert forall i :: 0 <= i < |rows| ==> rs[i] == Success(prs[i]);
    var r := CollectRows(rs);
    assert r.Success?;
    assert r.value == prs;
  }

  /** A bad row after good ones is the error `ParseRows` reports. */
  lemma ParseRowsFirstBad(rows: seq<seq<string>>, fpath: string, prs: seq<Row>)
    requires PrefixParsed(rows, fpath, prs) && |prs| < |rows|
    requires ParseRow(rows[|prs|], |prs| + 1, fpath).Failure?
    ensures ParseRows(rows, fpath) == Failure(ParseRow(rows[|prs|], |prs| + 1, fpath).error)
  {
    var rs := RowResults(rows, fpath);
    var ix := |prs|;
    assert forall i :: 0 <= i < ix ==> rs[..ix][i] == Success(prs[i]);
    FirstRowErrorWins(rs, ix);
  }

  /** The row loop after one more row. */
  lemma ReplayOneMore(prs: seq<Row>, row: Row, watch: set<int>)
    ensures Replay(prs + [row], watch) == StepRow(Replay(prs, watch), row, watch)
  {
    assert (prs + [row])[..|prs|] == prs;
  }

  /** The group loop after one more group. */
  lemma ScanOneMore(st: ScanState, gs: seq<Triple>, g: Triple, watch: set<int>)
    ensures ScanGroups(st, gs + [g], watch) == StepGroup(ScanGroups(st, gs, watch), g, watch)
  {
    assert (gs + [g])[..|gs|] == gs;
  }
}
