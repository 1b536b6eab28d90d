# Smartd log viewer, modelled in Dafny

`smartdlogv.py` reads the attribute logs smartd writes for each disk. Each log is a file of
`;`-separated rows. A row holds a timestamp `YYYY-MM-DD HH:MM:SS`, then groups of three
integers (attribute ID, normalised value, raw value), then one trailing field.

The viewer does four things:

- It keeps the first row and every later row in which a watched attribute changed. Each value
  carries its change since that attribute's last recorded value.
- It can shorten the log to the first record plus the last nineteen, rebasing the changes.
- It prints the log as an aligned text table, or returns it as a JSON-ready dictionary.
- It finds the disks under `/dev/disk/by-id` and matches them to a log by normalised model name.

The model follows the program's structure:

| file | module | models |
|---|---|---|
| `wrappers.dfy` | `Wrappers` | `Option` and `Result` |
| `numbers.dfy` | `Numbers` | `str(n)`, and `int(s.strip())` on ASCII decimal text |
| `timestamps.dfy` | `Timestamps` | `strftime` and `strptime` with `%Y-%m-%d %H:%M:%S` |
| `records.dfy` | `Records` | `smart_attr`, `smart_log_rec`, `compute_deltas`, and the checks on one row |
| `changelog.dfy` | `ChangeDetection` | the change-detection loop of `SMART_Log.__init__`, as functions, plus a reference definition from each attribute's history |
| `compaction.dfy` | `Compaction` | the shortened log |
| `render.dfy` | `Rendering` | the table `print_table` writes |
| `smartlog.dfy` | `SmartLogs` | the class `SmartLog`, whose methods (with loops) are proved against the functions above |
| `devices.dfy` | `Devices` | `normalize_devmodel`, `normalize_list`, the regular expressions, and the class `DiskDevices` |

## Model

| member | source | states |
|---|---|---|
| Records.ComputeDeltas | smartdlogv.py:79-88 | keeps the value and raw value; each delta added to `other`'s field gives `self`'s; the flag is true exactly when the value or the raw value differs |
| Records.ParseRow | smartdlogv.py:127-147 | on success the row has 3·(number of groups)+2 fields, its timestamp is the parsed first field, and each group is the three integers of its fields |
| Records.GoodRowAccepted | smartdlogv.py:127-147 | a row with a good field count, a parsable timestamp and every group three integers is accepted, with that timestamp and one group per three fields |
| Records.FieldCountCheckedFirst | smartdlogv.py:127-129 | a row whose field count minus 2 is not a multiple of 3 (Python's floor `%`) fails with the field-count error, whatever else is wrong with it |
| Records.ShortRowsRejected | smartdlogv.py:127-129 | a row of 0 or 1 fields fails the field-count check (−2 and −1 are not multiples of 3 under floor modulo) |
| Records.TimestampCheckedSecond | smartdlogv.py:134-137 | with a good field count, an unparsable first field gives the date/time error before any group is looked at |
| Records.FirstBadGroupWins | smartdlogv.py:143-147 | with a good count and timestamp, the first group holding a non-integer gives the attribute error, numbered from 1 |
| Records.CollectGroups | smartdlogv.py:143-147 | succeeds exactly when every group parses, and then returns every group in order |
| Records.CollectGroupsFailure | smartdlogv.py:143-147 | a failure names the earliest group that does not parse |
| Records.LastFieldIgnored | smartdlogv.py:143 | the trailing field of a row never affects the result |
| Numbers.IntToStringRoundTrip | smartdlogv.py:145 | `int(str(n)) == n` for every integer |
| Numbers.Strip | smartdlogv.py:145 | `strip()` returns a slice of its input with only white space outside the slice; the result has no white space at either end, and it is non-empty when the input holds any other character |
| Numbers.ParseSigned | smartdlogv.py:145 | `int()` of stripped text accepts only digits after an optional `+` or `-`, and accepts every non-empty run of digits; a negative result was written with `-` |
| Numbers.LeadingZerosAndSigns | smartdlogv.py:145 | non-canonical text reads as Python reads it: a leading zero or a `+` changes nothing, and `-` negates, so `-0` is 0 |
| Numbers.ParseInt | smartdlogv.py:145 | blank text is rejected, and accepted text holds a digit |
| Numbers.ParseIntIgnoresOuterSpace | smartdlogv.py:145 | a white-space character added at either end of a field never changes what it reads as |
| Numbers.IntToString | smartdlogv.py:242 | `str(n)` is digits after a `-` that appears exactly when n is negative, in shortest form: no leading zero except for 0 itself, and none after the `-` |
| Timestamps.FormatThenParse | smartdlogv.py:135 | parsing a formatted valid date and time gives it back |
| Timestamps.ParseThenFormat | smartdlogv.py:249 | formatting a parsed timestamp gives back the original text |
| Timestamps.FormatTimestamp | smartdlogv.py:249 | the text has the fixed `YYYY-MM-DD HH:MM:SS` layout: digits in every field, with `-`, a space and `:` between them |
| Timestamps.ParseTimestamp | smartdlogv.py:134-137 | a successful parse is a real calendar moment |
| ChangeDetection.CollectRows | smartdlogv.py:123-147 | the whole file is accepted exactly when every row parses, and then every row is kept in order |
| ChangeDetection.FirstRowErrorWins | smartdlogv.py:123-147 | the first bad row's error is the one raised |
| ChangeDetection.ParseRowsFirstBad | smartdlogv.py:123-147 | after a prefix of good rows, a bad row's error is the file's error |
| ChangeDetection.ReplayMatchesReference | smartdlogv.py:139-172 | the loop's log equals the reference log built from the attribute histories; `lastvalues` holds each watched attribute's latest distinct reading; `firstrecord` is still set only for an empty file; `nrawrecords` counts every row |
| ChangeDetection.StepGroupEffect | smartdlogv.py:149-162 | an unwatched group changes nothing; a watched one enters `adict` and `lastvalues` with its value and raw value, leaves other remembered attributes alone, and adds one to `ndeltas` exactly when its attribute was remembered with a different reading |
| ChangeDetection.ScanGroupsBounds | smartdlogv.py:143-162 | scanning a row only adds watched attributes to `lastvalues` and `adict`, never forgets one, and counts at most one change per group |
| ChangeDetection.StepRowEffect | smartdlogv.py:164-172 | each row is counted and clears `firstrecord`; the log keeps its records and gains at most one, always for the first row, carrying the row's time and only watched attributes |
| ChangeDetection.ReplayShape | smartdlogv.py:116-172 | after the loop `nrawrecords` is the row count, `firstrecord` holds only for an empty file, there are no more records than rows, and the first row is the first record |
| ChangeDetection.ScanMatchesHistory | smartdlogv.py:149-162 | scanning a row's groups updates `lastvalues` to the latest distinct readings and counts the changes |
| ChangeDetection.KeptIndicesMembership | smartdlogv.py:166-172 | row i is kept exactly when it is the first row or a watched attribute in it differs from its last recorded reading |
| ChangeDetection.KeptIndicesIncrease | smartdlogv.py:166-172 | the kept rows keep file order |
| ChangeDetection.RefLogAtKeptIndices | smartdlogv.py:166-172 | the k-th log record is the record of the k-th kept row |
| ChangeDetection.FirstRowKept | smartdlogv.py:166-172 | a non-empty file always yields its first row as the first record |
| ChangeDetection.LatestIsLastOccurrence | smartdlogv.py:155-160 | an attribute has a last-seen reading exactly when it occurred, and that reading is its last occurrence |
| ChangeDetection.DeltasFromPreviousOccurrence | smartdlogv.py:153-162 | a first sighting has zero deltas; later readings have deltas from the attribute's latest recorded reading |
| ChangeDetection.RowAttrsKeys | smartdlogv.py:149-162 | a record holds exactly the watched attributes of its row |
| ChangeDetection.RowAttrsLastOccurrence | smartdlogv.py:153-162 | a group repeated in a row is recorded from its last occurrence |
| ChangeDetection.DifferenceIsCounted | smartdlogv.py:155-158 | a differing reading makes the change count positive |
| ChangeDetection.CountedChangeExists | smartdlogv.py:155-158 | a positive change count comes from some differing reading |
| ChangeDetection.OnlyWatchedAttributes | smartdlogv.py:149-151 | no record holds an attribute outside `onlyAttrs` |
| ChangeDetection.RetentionExample | smartdlogv.py:166-172 | three rows in which attribute 5 changes only at the third: rows 1 and 3 are kept, and row 3's deltas are −1 and +1 |
| ChangeDetection.ReplayKeepsTimestampsValid | smartdlogv.py:135-170 | every kept record has a real calendar timestamp |
| ChangeDetection.Watched | smartdlogv.py:149-151 | the filtered groups are watched, and every watched group survives the filter |
| Compaction.ShortLogUnchanged | smartdlogv.py:177-178 | a log that is not shortened, or holds at most 20 records, is left as it is |
| Compaction.Survivors | smartdlogv.py:180 | `del log[1:-19]` keeps 20 records: the first, then the last 19 in order |
| Compaction.Shortened | smartdlogv.py:177-188 | a longer log shrinks to exactly 20 records, any other keeps its length, and the first record stays first |
| Compaction.ShortenedSurvivor | smartdlogv.py:180-188 | record i of the short log is record `len-20+i` of the long one, with the same timestamp and attributes |
| Compaction.SurvivorIsRebased | smartdlogv.py:183-188 | each survivor is rebased against the first record's attributes |
| Compaction.ShortenedDeltasFromFirst | smartdlogv.py:186-188 | an attribute also present in the first record gets deltas measured from it |
| Compaction.ShortenedDeltasKept | smartdlogv.py:186-188 | an attribute absent from the first record keeps its old deltas |
| Compaction.Rebase | smartdlogv.py:185-188 | the timestamp, the attribute IDs and every value and raw value are kept; an attribute the first record also has gets deltas equal to its value and raw value minus the first record's; any other attribute is left as it was |
| Compaction.ShortenedKeepsTimestampsValid | smartdlogv.py:177-188 | shortening keeps every timestamp valid |
| Compaction.ShortenedIdempotent | smartdlogv.py:177-188 | shortening a shortened log changes nothing |
| Rendering.FormatDelta | smartdlogv.py:238-246 | the dash appears exactly for zero; otherwise the text reads back as the delta and is `+` for a positive delta or `-` for a negative one, followed by at least one digit, all digits, the first not `0` |
| Rendering.PlusSignRoundTrip | smartdlogv.py:243-244 | an explicit `+` before the digits reads back as the same number |
| Rendering.Columns | smartdlogv.py:199-203 | the attribute IDs collected are exactly those occurring in some record |
| Rendering.SortedIds | smartdlogv.py:205 | the header holds each collected ID once, in strictly increasing order |
| Rendering.HeaderIsColumns | smartdlogv.py:199-205 | an ID is a header column exactly when some record holds it |
| Rendering.HeaderRow | smartdlogv.py:236 | the header row has the fixed first cell and one cell per column, showing the column's ID and the delta mark |
| Rendering.AttrCellShows | smartdlogv.py:252 | an attribute's cell reads back as its raw value, and its delta cell is the dash exactly when the raw delta is zero and otherwise reads back as that delta |
| Rendering.DataCells | smartdlogv.py:248-252 | one cell per column, and every cell is filled exactly when the record holds every column's attribute |
| Rendering.DataCellShows | smartdlogv.py:248-252 | column j is filled exactly when the record holds attribute `header[j]`, and then reads back as that attribute's raw value, with its raw delta or the dash exactly for a zero delta |
| Rendering.DataRowShows | smartdlogv.py:249-252 | in a complete record's row, column j shows attribute `header[j]`'s raw value and raw delta |
| Rendering.Widen | smartdlogv.py:222-234 | after `__add_row` the row fits, no width shrinks, and each width is either the old one or the width of the row's cell |
| Rendering.LJust | smartdlogv.py:257 | `ljust` starts with the text and pads it with spaces up to the width; text already as wide is returned as it is |
| Rendering.RJust | smartdlogv.py:260 | `rjust` ends with the text and pads with spaces on the left up to the width; text already as wide is returned as it is |
| Rendering.Pieces | smartdlogv.py:256-260 | one piece for the timestamp and one per attribute column; `PieceLayout` and `RenderRowShowsCells` state what each piece holds |
| Rendering.Join | smartdlogv.py:262 | the joined text begins with the first piece; `JoinPrefix` and `JoinShowsPiece` place the later pieces |
| Rendering.RenderRow | smartdlogv.py:256-262 | a rendered row begins with its timestamp cell; `RenderRowShowsStamp` and `RenderRowShowsCells` state the whole layout of a row that fits |
| Rendering.JoinPrefix | smartdlogv.py:262 | joining the first m pieces gives a prefix of joining them all |
| Rendering.JoinShowsPiece | smartdlogv.py:262 | in `sep.join(t)`, piece m (m ≥ 1) stands right after the first m pieces joined and one separator |
| Rendering.PieceLayout | smartdlogv.py:256-262 | the row is its pieces joined by two spaces; piece j+1 is column j's `rjust` value, a space and `ljust` delta, `value + 1 + delta` wide, after `CellOffset(w, j)` characters |
| Rendering.RenderRowShowsStamp | smartdlogv.py:257 | a fitting row begins with its timestamp padded to the timestamp column's width |
| Rendering.RenderRowShowsCells | smartdlogv.py:256-262 | in a fitting row, column j starts at the timestamp width plus the widths of the columns before it, with two spaces and then the right-justified value, a space and the left-justified delta |
| Rendering.MeasureFitsAll | smartdlogv.py:217-234 | every table cell fits the widths computed |
| Rendering.MeasureIsLeast | smartdlogv.py:217-234 | the computed widths are the least ones every cell fits |
| Rendering.FirstIncomplete | smartdlogv.py:248-254 | finds the first record that lacks a header column, if any |
| Rendering.TableLinesCrash | smartdlogv.py:195-254 | an empty log never fails; otherwise the table fails at the first incomplete record |
| Rendering.TableFailsIffColumnMissing | smartdlogv.py:248-254 | the table prints exactly when every record holds every collected attribute |
| Rendering.CrashAtFirstIncompleteRecord | smartdlogv.py:248-254 | on failure, the failing record lacks a column and every earlier one has them all |
| Rendering.RenderRowWidth | smartdlogv.py:256-262 | a row that fits the widths renders to the common line width |
| Rendering.TableLines | smartdlogv.py:190-267 | the title comes first; an empty log prints the title and the no-attributes line and never fails; a failing table has printed only the title |
| Rendering.TableLinesAligned | smartdlogv.py:190-267 | a printed table has one line per record plus title, header and the final empty line, and all row lines have the same length |
| Rendering.TableLineOfRow | smartdlogv.py:264-265 | table line k+1 is row k rendered with the table's widths |
| Rendering.DataLineShowsTimestamp | smartdlogv.py:249 | the line of record i starts with text that parses back to that record's timestamp |
| SmartLogs.ScanGroup | smartdlogv.py:149-162 | one group's effect on `lastvalues`, `adict` and `ndeltas` is one step of the reference scan |
| SmartLogs.ReadRow | smartdlogv.py:127-162 | fails exactly as `ParseRow` does; on success, returns the timestamp and the scan of the row's groups |
| SmartLogs.ScanRow | smartdlogv.py:143-162 | fails at the earliest bad group; otherwise returns the scan of every group |
| SmartLogs.ReadLog | smartdlogv.py:116-172 | fails with the first bad row's error; otherwise returns the replay of all rows |
| SmartLogs.SmartLog.ReadRecords | smartdlogv.py:110-172 | sets the log to the replayed log and `nrawrecords` to the row count, or reports the file's error |
| SmartLogs.SmartLog.Shorten | smartdlogv.py:174-188 | the new log is the shortened old log; the device and `nrawrecords` are unchanged |
| SmartLogs.Open | smartdlogv.py:98-188 | the constructed object's log is the shortened replay of the file; a bad file gives its first error |
| SmartLogs.SmartLog.PrintTable | smartdlogv.py:190-267 | writes exactly the lines `TableLines` describes, or stops where it does |
| SmartLogs.AttributeIds | smartdlogv.py:199-203 | the set gathered is the log's columns |
| SmartLogs.HeaderColumns | smartdlogv.py:207-209 | maps each header ID, and only those, to its own position |
| SmartLogs.AddRow | smartdlogv.py:222-234 | fails exactly when a cell is missing; otherwise widens each column to fit the row |
| SmartLogs.FillRow | smartdlogv.py:249-252 | the loop's cells are the record's `DataCells`: column j holds attribute `header[j]`'s raw value and formatted delta, or a gap when the record lacks it |
| SmartLogs.RecordRow | smartdlogv.py:248-254 | the record's row and the widened widths, or failure exactly when it lacks a column |
| SmartLogs.BuildTable | smartdlogv.py:236-254 | stops at the first incomplete record; otherwise builds all table rows with their least widths |
| SmartLogs.HeaderWidths | smartdlogv.py:218-220 | the widths after the header row alone |
| SmartLogs.FormatRow | smartdlogv.py:256-262 | the line of one row under the widths |
| SmartLogs.RenderRows | smartdlogv.py:264-265 | one formatted line per row, in order |
| SmartLogs.RebaseRecord | smartdlogv.py:186-188 | the record rebased against the given attributes |
| SmartLogs.SmartLog.GetJson | smartdlogv.py:269-279 | names the device and the model; one entry per record, whose text parses back to the record's timestamp, with the record's attributes |
| Devices.NormalizeDevModel | smartdlogv.py:282-288 | same length; each `-` becomes `_`, and every other character is kept |
| Devices.NormalizeDevModelIdempotent | smartdlogv.py:282-288 | no `-` remains, so normalising twice is normalising once |
| Devices.NormalizeList | smartdlogv.py:291-306 | `None` gives an empty list; otherwise `Flatten` of the list, which `FlattenSingle` and `FlattenAppend` pin down: plain values in place, nested lists flattened in place |
| Devices.Flatten | smartdlogv.py:300-304 | every plain item of the list is in the flattened list |
| Devices.FlattenSingle | smartdlogv.py:300-304 | the empty list flattens to nothing, a plain value to itself, and a nested list to its own flattening; with `FlattenAppend` this determines the result |
| Devices.FlattenAround | smartdlogv.py:300-304 | item i, plain or nested, contributes its values in place between those of the items before and after it |
| Devices.FlattenAppend | smartdlogv.py:300-304 | flattening distributes over concatenation |
| Devices.FlattenPlain | smartdlogv.py:300-304 | a list with no nested lists flattens to itself |
| Devices.MatchDevName | smartdlogv.py:38 | a match is the text after `ata-` or `scsi-`, up to an optional final newline |
| Devices.MatchDevNameAccepts | smartdlogv.py:38 | every single-line `ata-…` or `scsi-…` name matches, and yields its rest |
| Devices.MatchDevNameAcceptsNewline | smartdlogv.py:38 | the same names with one final newline also match, and the captured rest leaves the newline out |
| Devices.IsPartitionName | smartdlogv.py:39 | a name taken for a partition is a single line ending in `-part` and digits, up to an optional final newline |
| Devices.PartitionNamesRecognised | smartdlogv.py:39 | every single-line name ending in `-part` and digits, with or without a final newline, is taken for a partition |
| Devices.MatchLogFileName | smartdlogv.py:36 | a match is a dot-free model name that the file name starts with, after `attrlog.` and before a `.`, and `.csv` occurs later on the name's first line |
| Devices.MatchLogFileNameExact | smartdlogv.py:36 | a file name `attrlog.<m>.…` yields `<m>` exactly when `.csv` follows on its first line; without it there is no match |
| Devices.LogFileNameRecognised | smartdlogv.py:36 | `attrlog.<model>.<kind>.csv` yields `<model>` |
| Devices.DevicesAreNormalised | smartdlogv.py:396 | every listed model name is normalised |
| Devices.DevicesFrom | smartdlogv.py:376-396 | no more devices than directory entries |
| Devices.DevicesFromEntries | smartdlogv.py:382-396 | every ATA or SCSI entry that is not a partition gives its device, and every device comes from such an entry |
| Devices.DiskDevices.constructor | smartdlogv.py:376-396 | lists, in directory order, the ATA and SCSI entries that are not partitions, each with its target's name and its normalised model |
| Devices.DiskDevices.GetByModel | smartdlogv.py:398-406 | `None` exactly when no device has the model; otherwise the first device that has it |

Some helpers have no row of their own: `DataRow`, `PairText`, `CellOffset`, `PlacedAt`, `JoinSnoc`, `SlicesOfPrefix`, `Title`, `RenderAll`, `SmartLog.Init` and `NormalizeItems`. The rows of the members that use them cite the same source lines.

## Left out

- File and directory access: the csv file comes in as its rows (`seq<seq<string>>`). The `/dev/disk/by-id` listing comes in as entries of a name and the base name of its resolved target. `os.listdir` order is whatever order the entries are given in.
- `csv.reader` quoting and dialects: a row is taken to be already split at `;`.
- `strptime`: only the fixed 19-character form is accepted: two-digit fields, a four-digit year and a single space between date and time. Python also accepts one-digit fields, a space-padded day for `%d`, and any run of white space where the format has its space. Its fields are read with `\d`, which in Python also matches non-ASCII decimal digits; the model reads ASCII digits only.
- `strftime`: years 1 to 9999 are written zero-padded to four digits, as Python documents. Some platforms' `strftime` write fewer digits for years below 1000; that is not modelled.
- `int()` accepting underscores, non-ASCII digits and non-ASCII white space: only ASCII digits, an optional sign and ASCII white space around them are modelled. `\d` in the partition pattern is likewise ASCII only.
- `print`, `json.dumps` and standard output: `PrintTable` returns the lines it would print, and `GetJson` returns the dictionary's parts as a datatype.
- `main`, `argparse` handling, `print_devices`, the log-directory scan and the profiling script are outside the modelled core.
- `SmartLogs.Open` and `SmartLog.ReadRecords`: the partly built object left when `__init__` raises is not modelled; a failure returns only the error.
- `smart_attr` objects are values. No object is shared between two records in the program, so in-place `compute_deltas` and a fresh value agree.
- `Compaction.SurvivorIsRebased`: measuring each survivor from the record now before it would keep neighbouring deltas consistent; the code measures every survivor from the first record (smartdlogv.py:183-188), and so does the model.
- `SmartLogs.ReadLog`: an empty `onlyAttrs` keeps no attribute. The command line substitutes its default watch list before the log is read.
- `SmartLogs.FillRow`: it visits a record's attributes in set order rather than sorted. Each attribute writes only its own column, so the row is the same.
- `SmartLogs.SmartLog.PrintTable`: the `TypeError` raised for a record that lacks a column is modelled as `crash`. The title has already been printed at that point, so `lines` holds only the title.
