/**
 * Naming of disks and log files: the model-name normalisation shared by
 * `/dev/disk/by-id` entries and smartd log file names, the three regular
 * expressions that pick those names apart, the device list and its lookup
 * by model, and the flattening of nested argument lists.
 */
module Devices {
  import opened Wrappers
  import opened Numbers

  /** `device_name`: a device file name (or a log file name) and its model label. */
  datatype DeviceName = DeviceName(filename: string, modelname: string)

  // ---------------------------------------------------------------------
  // normalize_devmodel and normalize_list
  // ---------------------------------------------------------------------

  /** `normalize_devmodel`: every `-` becomes `_`, nothing else changes. */
  function NormalizeDevModel(devname: string): (r: string)
    ensures |r| == |devname|
    ensures forall i :: 0 <= i < |r| ==> r[i] == (if devname[i] == '-' then '_' else devname[i])
  {
    if devname == [] then []
    else
      var c := devname[|devname| - 1];
      NormalizeDevModel(devname[..|devname| - 1]) + [if c == '-' then '_' else c]
  }

  /** A normalised name holds no `-`, and normalising it again changes nothing. */
  lemma NormalizeDevModelIdempotent(devname: string)
    ensures '-' !in NormalizeDevModel(devname)
    ensures NormalizeDevModel(NormalizeDevModel(devname)) == NormalizeDevModel(devname)
  {
    var r := NormalizeDevModel(devname);
    assert forall i :: 0 <= i < |r| ==> r[i] != '-';
  }

  /** An argument list as argparse builds it: plain values and nested lists. */
  datatype ArgItem<T> = Atom(value: T) | Nested(items: seq<ArgItem<T>>)

  /** The plain values of a nested list, left to right. */
  function Flatten<T>(l: seq<ArgItem<T>>): (r: seq<T>)
    ensures forall i :: 0 <= i < |l| && l[i].Atom? ==> l[i].value in r
  {
    if l == [] then []
    else
      Flatten(l[..|l| - 1]) + match l[|l| - 1]
        case Atom(v) => [v]
        case Nested(items) => Flatten(items)
  }

  /** Flattening a concatenation flattens each part in order. */
  lemma {:induction false} FlattenAppend<T>(a: seq<ArgItem<T>>, b: seq<ArgItem<T>>)
    ensures Flatten(a + b) == Flatten(a) + Flatten(b)
    decreases |b|
  {
    if b == [] {
      assert a + b == a;
    } else {
      var b' := b[..|b| - 1];
      assert (a + b)[..|a + b| - 1] == a + b';
      assert (a + b)[|a + b| - 1] == b[|b| - 1];
      FlattenAppend(a, b');
      var tail := match b[|b| - 1] case Atom(v) => [v] case Nested(items) => Flatten(items);
      assert Flatten(a + b) == Flatten(a + b') + tail;
      assert Flatten(b) == Flatten(b') + tail;
    }
  }

  /** The empty list, one plain value and one nested list: with `FlattenAppend` these fix `Flatten`. */
  lemma FlattenSingle<T>(v: T, xs: seq<ArgItem<T>>)
    ensures Flatten<T>([]) == []
    ensures Flatten([Atom(v)]) == [v]
    ensures Flatten([Nested(xs)]) == Flatten(xs)
  {
    assert [Atom(v)][..0] == [];
    assert [Nested(xs)][..0] == [];
  }

  /** The values one item contributes: itself if plain, its own flattening if nested. */
  function Contribution<T>(x: ArgItem<T>): seq<T>
  {
    match x
    case Atom(v) => [v]
    case Nested(items) => Flatten(items)
  }

  /** Item `i` of a list, plain or nested, contributes its values in place. */
  lemma {:induction false} FlattenAround<T>(l: seq<ArgItem<T>>, i: nat)
    requires i < |l|
    ensures Flatten(l) == Flatten(l[..i]) + Contribution(l[i]) + Flatten(l[i + 1..])
  {
    var init := l[..|l| - 1];
    FlattenLast(l);
    if i == |l| - 1 {
      assert init == l[..i];
      assert l[i + 1..] == [];
      assert Flatten(l[i + 1..]) == [];
      AppendEmpty(Flatten(init) + Contribution(l[i]));
    } else {
      FlattenAround(init, i);
      FlattenSuffixLast(l, i);
      assert init[..i] == l[..i] && init[i] == l[i];
      Regroup(Flatten(l[..i]), Contribution(l[i]), Flatten(init[i + 1..]), Contribution(l[|l| - 1]));
    }
  }

  lemma AppendEmpty<T>(x: seq<T>)
    ensures x + [] == x
  {
  }

  lemma Regroup<T>(x: seq<T>, c: seq<T>, y: seq<T>, z: seq<T>)
    ensures (x + c + y) + z == x + c + (y + z)
  {
  }

  lemma FlattenLast<T>(l: seq<ArgItem<T>>)
    requires l != []
    ensures Flatten(l) == Flatten(l[..|l| - 1]) + Contribution(l[|l| - 1])
  {
  }

  lemma FlattenSuffixLast<T>(l: seq<ArgItem<T>>, i: nat)
    requires i + 1 < |l|
    ensures Flatten(l[i + 1..]) == Flatten(l[..|l| - 1][i + 1..]) + Contribution(l[|l| - 1])
  {
    var rest := l[i + 1..];
    assert rest[..|rest| - 1] == l[..|l| - 1][i + 1..];
    assert rest[|rest| - 1] == l[|l| - 1];
    FlattenLast(rest);
  }

  /** A list without nesting flattens to its own values. */
  lemma {:induction false} FlattenPlain<T>(l: seq<ArgItem<T>>)
    requires forall i :: 0 <= i < |l| ==> l[i].Atom?
    ensures |Flatten(l)| == |l|
    ensures forall i :: 0 <= i < |l| ==> Flatten(l)[i] == l[i].value
  {
    if l != [] {
      FlattenPlain(l[..|l| - 1]);
    }
  }

  /** `normalize_list`: `None` gives the empty list, nested lists are flattened in order. */
  method NormalizeList<T>(l: Option<seq<ArgItem<T>>>) returns (ret: seq<T>)
    ensures l.None? ==> ret == []
    ensures l.Some? ==> ret == Flatten(l.value)
  {
    ret := [];
    if l.None? {
      return;
    }
    ret := NormalizeItems(l.value);
  }

  /** The loop of `normalize_list` over a list that is present. */
  method NormalizeItems<T>(l: seq<ArgItem<T>>) returns (ret: seq<T>)
    ensures ret == Flatten(l)
    decreases l
  {
    ret := [];
    for i := 0 to |l|
      invariant ret == Flatten(l[..i])
    {
      assert l[..i + 1][..i] == l[..i];
      match l[i]
      case Atom(v) =>
        ret := ret + [v];
      case Nested(sl) =>
        var sub := NormalizeItems(sl);
        ret := ret + sub;
    }
    assert l[..|l|] == l;
  }

  // ---------------------------------------------------------------------
  // The regular expressions RX_DEVNAME, RX_DEVPART and RX_FNAME
  // ---------------------------------------------------------------------

  /**
   * `.*` followed by `$`: the text matches if it has no newline, or a single
   * newline at its very end, which `$` accepts and the group leaves out.
   */
  function ToEndOfLine(t: string): (r: Option<string>)
    ensures r.Some? ==> '\n' !in r.value && (t == r.value || t == r.value + "\n")
    ensures '\n' !in t ==> r == Some(t)
  {
    if '\n' !in t then Some(t)
    else if t[|t| - 1] == '\n' && '\n' !in t[..|t| - 1] then
      assert t == t[..|t| - 1] + "\n";
      Some(t[..|t| - 1])
    else None
  }

  /** `RX_DEVNAME.match(name)`, `^(ata|scsi)-(.*)$`: the text after the bus prefix. */
  function MatchDevName(name: string): (r: Option<string>)
    ensures r.Some? ==> '\n' !in r.value
    ensures r.Some? ==> (|| name == "ata-" + r.value || name == "ata-" + r.value + "\n"
                         || name == "scsi-" + r.value || name == "scsi-" + r.value + "\n")
  {
    if |name| >= 4 && name[..4] == "ata-" then
      assert name == "ata-" + name[4..];
      ToEndOfLine(name[4..])
    else if |name| >= 5 && name[..5] == "scsi-" then
      assert name == "scsi-" + name[5..];
      ToEndOfLine(name[5..])
    else None
  }

  /** Every ATA or SCSI name on one line is matched, and its rest captured. */
  lemma MatchDevNameAccepts(rest: string)
    requires '\n' !in rest
    ensures MatchDevName("ata-" + rest) == Some(rest)
    ensures MatchDevName("scsi-" + rest) == Some(rest)
  {
    assert ("ata-" + rest)[..4] == "ata-" && ("ata-" + rest)[4..] == rest;
    assert ("scsi-" + rest)[0] == 's';
    assert ("scsi-" + rest)[..5] == "scsi-" && ("scsi-" + rest)[5..] == rest;
  }

  lemma EndOfLineBeforeNewline(rest: string)
    requires '\n' !in rest
    ensures ToEndOfLine(rest + "\n") == Some(rest)
  {
    var t := rest + "\n";
    assert t[..|t| - 1] == rest;
    assert t[|t| - 1] == '\n';
  }

  /** `$` also matches before one final newline, which the captured rest leaves out. */
  lemma MatchDevNameAcceptsNewline(rest: string)
    requires '\n' !in rest
    ensures MatchDevName("ata-" + rest + "\n") == Some(rest)
    ensures MatchDevName("scsi-" + rest + "\n") == Some(rest)
  {
    var t := rest + "\n";
    EndOfLineBeforeNewline(rest);
    MatchDevNameAt("ata-", t);
    MatchDevNameAt("scsi-", t);
  }

  lemma MatchDevNameAt(prefix: string, t: string)
    requires prefix == "ata-" || prefix == "scsi-"
    ensures MatchDevName(prefix + t) == ToEndOfLine(t)
  {
    var n := prefix + t;
    if prefix == "ata-" {
      assert n[..4] == "ata-" && n[4..] == t;
    } else {
      assert n[0] == 's';
      assert n[..5] == "scsi-" && n[5..] == t;
    }
  }

  /** The number of decimal digits at the end of `t`. */
  function TrailingDigits(t: string): (k: nat)
    ensures k <= |t|
    ensures forall i :: |t| - k <= i < |t| ==> IsDigit(t[i])
    ensures k < |t| ==> !IsDigit(t[|t| - k - 1])
  {
    if t != [] && IsDigit(t[|t| - 1]) then TrailingDigits(t[..|t| - 1]) + 1 else 0
  }

  /** `name` is one line `p`, then `-part` and the digits `d`, then at most a final newline. */
  predicate PartitionShape(name: string, p: string, d: string)
  {
    && '\n' !in p && d != [] && AllDigits(d)
    && (name == p + "-part" + d || name == p + "-part" + d + "\n")
  }

  /** `name` without the one final newline that `$` lets through. */
  function DropFinalNewline(name: string): (t: string)
    ensures name == t || name == t + "\n"
  {
    if name != [] && name[|name| - 1] == '\n' then
      assert name == name[..|name| - 1] + "\n";
      name[..|name| - 1]
    else name
  }

  /** `RX_DEVPART.match(name)`, `.*?-part\d+$`: the name of a partition. */
  predicate IsPartitionName(name: string): (b: bool)
    ensures b ==> exists p, d :: PartitionShape(name, p, d)
  {
    var t := DropFinalNewline(name);
    var k := TrailingDigits(t);
    if '\n' in t || k < 1 || k + 5 > |t| || t[|t| - k - 5..|t| - k] != "-part" then false
    else
      PartitionShapeOf(name, t, k);
      true
  }

  lemma PartitionShapeOf(name: string, t: string, k: nat)
    requires name == t || name == t + "\n"
    requires '\n' !in t && 1 <= k && k + 5 <= |t| && t[|t| - k - 5..|t| - k] == "-part"
    requires forall i :: |t| - k <= i < |t| ==> IsDigit(t[i])
    ensures exists p, d :: PartitionShape(name, p, d)
  {
    var p, d := t[..|t| - k - 5], t[|t| - k..];
    assert t == p + "-part" + d;
    assert forall i :: 0 <= i < |p| ==> p[i] == t[i];
    assert PartitionShape(name, p, d);
  }

  /** Any one-line name ending in `-part` and a number, with or without a final newline, is a partition. */
  lemma {:induction false} PartitionNamesRecognised(p: string, d: string)
    requires '\n' !in p && d != [] && AllDigits(d)
    ensures IsPartitionName(p + "-part" + d)
    ensures IsPartitionName(p + "-part" + d + "\n")
  {
    var t := p + "-part" + d;
    assert t[|t| - 1] == d[|d| - 1];
    TrailingDigitsOfSuffix(p + "-part", d);
    assert t[|t| - |d| - 5..|t| - |d|] == "-part";
    assert DropFinalNewline(t) == t;
    assert (t + "\n")[..|t + "\n"| - 1] == t;
    assert DropFinalNewline(t + "\n") == t;
  }

  lemma {:induction false} TrailingDigitsOfSuffix(s: string, d: string)
    requires s != [] && !IsDigit(s[|s| - 1]) && AllDigits(d)
    ensures TrailingDigits(s + d) == |d|
    decreases |d|
  {
    if d == [] {
      assert s + d == s;
    } else {
      var d' := d[..|d| - 1];
      assert (s + d)[..|s + d| - 1] == s + d';
      TrailingDigitsOfSuffix(s, d');
    }
  }

  /** The position of the first `c` in `s`, if any. */
  function IndexOf(s: string, c: char): (r: Option<nat>)
    ensures r.Some? ==> r.value < |s| && s[r.value] == c && c !in s[..r.value]
    ensures r.None? ==> c !in s
  {
    if s == [] then None
    else if s[0] == c then Some(0)
    else match IndexOf(s[1..], c)
      case None => None
      case Some(i) =>
        assert s[..i + 1] == [s[0]] + s[1..][..i];
        Some(i + 1)
  }

  /** The text before the first newline: no part of a match crosses it. */
  function FirstLine(s: string): (r: string)
    ensures '\n' !in r && r <= s
    ensures '\n' !in s ==> r == s
  {
    match IndexOf(s, '\n')
    case None => s
    case Some(i) => s[..i]
  }

  /** Whether `.csv` occurs in `u` at or after position `from`. */
  predicate HasCsvFrom(u: string, from: nat)
  {
    exists p :: from <= p <= |u| && CsvAt(u, p)
  }

  predicate CsvAt(u: string, p: nat)
  {
    p + 4 <= |u| && u[p..p + 4] == ".csv"
  }

  /**
   * `RX_FNAME.match(fname)`, `^attrlog\.(.*?)\..*?\.csv`: the shortest text
   * after `attrlog.` that is followed by a `.` and, later, by `.csv`.
   */
  function MatchLogFileName(fname: string): (r: Option<string>)
    ensures r.Some? ==> '\n' !in r.value && '.' !in r.value && "attrlog." + r.value + "." <= fname
    ensures r.Some? ==> |fname| >= 8 && HasCsvFrom(FirstLine(fname[8..]), |r.value| + 1)
  {
    if |fname| < 8 || fname[..8] != "attrlog." then None
    else
      var u := FirstLine(fname[8..]);
      match IndexOf(u, '.')
      case None => None
      case Some(i) =>
        if HasCsvFrom(u, i + 1) then
          assert u[..i + 1] == u[..i] + ".";
          assert u[..i + 1] == fname[8..][..i + 1] == fname[8..8 + i + 1];
          assert fname[..8 + i + 1] == fname[..8] + fname[8..8 + i + 1];
          Some(u[..i])
        else None
  }

  /**
   * The match is exact: a dot-free `m` that the name starts with, as
   * `attrlog.<m>.`, is the match exactly when `.csv` follows later on the
   * same line. So a name with no `.csv` there matches nothing.
   */
  lemma MatchLogFileNameExact(fname: string, m: string)
    requires '.' !in m && "attrlog." + m + "." <= fname
    ensures MatchLogFileName(fname) == Some(m) <==> HasCsvFrom(FirstLine(fname[8..]), |m| + 1)
  {
    var v := fname[8..];
    assert fname[..8] == "attrlog.";
    assert v[..|m| + 1] == m + ".";
    var u := FirstLine(v);
    assert u == v[..|u|];
    if |u| < |m| + 1 {
      assert forall i :: 0 <= i < |u| ==> u[i] == m[i];
      assert '.' !in u;
    } else {
      assert u[..|m| + 1] == m + ".";
      assert u[|m|] == '.';
      assert forall i :: 0 <= i < |m| ==> u[i] == m[i];
      var i :| IndexOf(u, '.') == Some(i);
      assert i == |m|;
      assert u[..|m|] == m;
    }
  }

  /** A smartd log name, `attrlog.<model>.<anything>.csv`, yields its model. */
  lemma LogFileNameRecognised(model: string, kind: string)
    requires '.' !in model && '\n' !in model && '\n' !in kind
    ensures MatchLogFileName("attrlog." + model + "." + kind + ".csv") == Some(model)
  {
    var fname := "attrlog." + model + "." + kind + ".csv";
    var u := model + "." + kind + ".csv";
    assert fname[..8] == "attrlog." && fname[8..] == u;
    assert '\n' !in u;
    assert FirstLine(u) == u;
    assert u[|model|] == '.';
    assert u[..|model|] == model;
    var p := |model| + 1 + |kind|;
    assert u[p..p + 4] == ".csv";
    assert CsvAt(u, p);
  }

  // ---------------------------------------------------------------------
  // DiskDevices
  // ---------------------------------------------------------------------

  /** An entry of `/dev/disk/by-id` and the file name of the device it resolves to. */
  datatype ByIdEntry = ByIdEntry(name: string, target: string)

  /** An entry `DiskDevices` lists: an ATA or SCSI disk, not one of its partitions. */
  predicate Listed(e: ByIdEntry)
  {
    MatchDevName(e.name).Some? && !IsPartitionName(e.name)
  }

  /** The device a listed entry stands for: its target's name and its normalised model. */
  function DeviceOf(e: ByIdEntry): DeviceName
    requires MatchDevName(e.name).Some?
  {
    DeviceName(e.target, NormalizeDevModel(MatchDevName(e.name).value))
  }

  /** The devices `DiskDevices` lists, in directory order. */
  function DevicesFrom(entries: seq<ByIdEntry>): (r: seq<DeviceName>)
    ensures |r| <= |entries|
  {
    if entries == [] then []
    else
      var e := entries[|entries| - 1];
      DevicesFrom(entries[..|entries| - 1]) + if Listed(e) then [DeviceOf(e)] else []
  }

  /** Every listed entry's device is in the list, and every device in it comes from a listed entry. */
  lemma DevicesFromEntries(entries: seq<ByIdEntry>)
    ensures forall j :: 0 <= j < |entries| && Listed(entries[j]) ==> DeviceOf(entries[j]) in DevicesFrom(entries)
    ensures forall d :: d in DevicesFrom(entries) ==>
      exists j :: 0 <= j < |entries| && Listed(entries[j]) && d == DeviceOf(entries[j])
  {
    ListedEntriesGiveDevices(entries);
    DevicesComeFromListedEntries(entries);
  }

  lemma {:induction false} ListedEntriesGiveDevices(entries: seq<ByIdEntry>)
    ensures forall j :: 0 <= j < |entries| && Listed(entries[j]) ==> DeviceOf(entries[j]) in DevicesFrom(entries)
  {
    if entries != [] {
      var init, e := entries[..|entries| - 1], entries[|entries| - 1];
      ListedEntriesGiveDevices(init);
      var r := DevicesFrom(entries);
      assert r == DevicesFrom(init) + if Listed(e) then [DeviceOf(e)] else [];
      forall j | 0 <= j < |entries| && Listed(entries[j])
        ensures DeviceOf(entries[j]) in r
      {
        if j < |init| {
          assert init[j] == entries[j];
          assert DeviceOf(init[j]) in DevicesFrom(init);
        } else {
          assert j == |init|;
          assert r[|r| - 1] == DeviceOf(e);
        }
      }
    }
  }

  lemma {:induction false} DevicesComeFromListedEntries(entries: seq<ByIdEntry>)
    ensures forall d :: d in DevicesFrom(entries) ==>
      exists j :: 0 <= j < |entries| && Listed(entries[j]) && d == DeviceOf(entries[j])
  {
    if entries != [] {
      var init, e := entries[..|entries| - 1], entries[|entries| - 1];
      DevicesComeFromListedEntries(init);
      var r := DevicesFrom(entries);
      assert r == DevicesFrom(init) + if Listed(e) then [DeviceOf(e)] else [];
      forall d | d in r
        ensures exists j :: 0 <= j < |entries| && Listed(entries[j]) && d == DeviceOf(entries[j])
      {
        if d in DevicesFrom(init) {
          var j :| 0 <= j < |init| && Listed(init[j]) && d == DeviceOf(init[j]);
          assert init[j] == entries[j];
        } else {
          assert entries[|entries| - 1] == e;
        }
      }
    }
  }


  /** Every listed device carries a normalised model label. */
  lemma {:induction false} DevicesAreNormalised(entries: seq<ByIdEntry>)
    ensures forall i :: 0 <= i < |DevicesFrom(entries)| ==> '-' !in DevicesFrom(entries)[i].modelname
  {
    if entries != [] {
      DevicesAreNormalised(entries[..|entries| - 1]);
      var md := MatchDevName(entries[|entries| - 1].name);
      if md.Some? {
        NormalizeDevModelIdempotent(md.value);
      }
    }
  }

  /** `DiskDevices`: the disks attached to the machine. */
  class DiskDevices {
    var devices: seq<DeviceName>

    /** Scans the given directory listing; resolving links is done by the caller. */
    constructor (entries: seq<ByIdEntry>)
      ensures devices == DevicesFrom(entries)
    {
      devices := [];
      new;
      for i := 0 to |entries|
        invariant devices == DevicesFrom(entries[..i])
      {
        assert entries[..i + 1][..i] == entries[..i];
        var devname := entries[i].name;
        var md := MatchDevName(devname);
        if md.None? {
          continue;
        }
        if IsPartitionName(devname) {
          continue;
        }
        devices := devices + [DeviceName(entries[i].target, NormalizeDevModel(md.value))];
      }
      assert entries[..|entries|] == entries;
    }

    /** `get_by_model`: the first device with that model label, or `None` if there is none. */
    method GetByModel(model: string) returns (r: Option<DeviceName>)
      ensures r.None? <==> forall i :: 0 <= i < |devices| ==> devices[i].modelname != model
      ensures r.Some? ==> r.value.modelname == model
      ensures r.Some? ==> exists i :: (&& 0 <= i < |devices| && devices[i] == r.value
                                       && forall j :: 0 <= j < i ==> devices[j].modelname != model)
    {
      for i := 0 to |devices|
        invariant forall j :: 0 <= j < i ==> devices[j].modelname != model
      {
        if devices[i].modelname == model {
          return Some(devices[i]);
        }
      }
      return None;
    }
  }
}
