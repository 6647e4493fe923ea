# Tracing-session bookkeeping, modelled in Dafny

The repository keeps track of neuron-tracing work. This project models three
pieces of it:

- **The user-table scripts** (`usersTableScripts.py`) reconcile two tables.
  - The hand-typed table of tracing sessions has one row per session: cell,
    file serials (`118` or a range `118-121`), date and user.
  - The table of tracing files has one row per file.
  - `get_fileroot` finds, for each cell, the file-name stem and extension its
    files share.
  - `build_filenames` expands each session's serials, builds the candidate
    file names and keeps those the file table has. It gives each kept file
    the ids of its matching row, and each user a dense id in order of first
    appearance.
  - `make_dt` rewrites `m/d/yy` dates.
  - `nodes_added` turns absolute node counts and times into per-file
    increments.
- **The log appender** (`knossosNumNodes.py`) scans an annotation file for a
  time marker and an active-node marker, stopping once both are known. It
  appends `file,nodes,time` to a log.
- **The C++ node reader** (`getTuples.cpp`) splits each line that holds a node
  on `"` and stores an (id, x, y, z, time, intensity) tuple, counting the
  nodes as it goes.

## How the model is built

- Data frames are sequences of records (`NodeRow`, `UserRow`). Files are
  sequences of lines. The log is a `Log` object whose `entries` field holds
  the records appended so far.
- Exceptions that escape the source become `Err` outcomes:
  - unpacking a date or a range with the wrong number of parts;
  - `int()` on a bad bound;
  - an empty file table, or an exhausted cell group, in `get_fileroot`;
  - `int(None)` after a scan that found only one marker;
  - a throwing `std::stoi`.
- Exceptions the source catches become plain control flow:
  - a missing root skips the session's candidates;
  - a bad marker value is ignored.
- The Python library operations are written out in module `Strings`:
  - `str.split`, `str.join`, `str.strip` and `in` on strings;
  - `int()` and `str()` on integers.
- `GetTuples.GetlinePieces` models `std::getline` splitting: it is Python's
  split without a trailing empty piece.
- Each loop of the source is a method proved against a specification, and
  the properties are proved about that specification:
  - `Serials`: the in-place padding is in the helper method `PadSerials`;
  - `GetFileRoot`: the per-cell `while` scan is in the helper method
    `ScanGroup`;
  - `BuildFilenames`, `GetProperties`, `SplitInto` and `Nodes.GetTuples`
    are proved equal to specification functions;
  - `NodesAdded` is proved to satisfy the relation `AreIncrements`, which
    fixes both output lists entry by entry.
- The base definitions follow single passages of the source:
  `ParseMarker` and `MarkerOf` model the marker tests of
  `knossosNumNodes.py:18-26`; `TupleOf` models the field reads of
  `getTuples.cpp:89-105`; `ScanTuples` and `ScanLine` model the line loop of
  `getTuples.cpp:116-124`; `Emit` models the logging of one matched file at
  `usersTableScripts.py:116-127`.

Two behaviours of the code are worth stating outright.
- A marker repeated before the other one arrives gives its latest value:
  lines 21-26 of `knossosNumNodes.py` overwrite the value on every match
  (`TimeIsLatest`, `NodeIsLatest`, `PropertiesAreLatest`).
- When the file ends with a value still unset, the code raises while
  formatting its diagnostic (`int(None)`, lines 34-35). The model makes that
  an explicit error (`MarkerMissing`).

## Model

| member | source | states |
|---|---|---|
| UsersTable.MakeDt | usersTableScripts.py:22-28 | with `ez` off the date comes back unchanged; with it on the conversion succeeds exactly when the date has two `/` (three parts to unpack) |
| UsersTable.MakeDtOfDate | usersTableScripts.py:24-27 | `m/d/y` (parts without `/`) becomes `20y-m-d`, parts copied verbatim, no padding or calendar check |
| UsersTable.SerialList | usersTableScripts.py:75-89 | a text without `-` is its own single serial, unpadded; with a `-` it fails with too many dashes unless there are exactly two parts, succeeds exactly when both parse as integers, and then gives hi-lo+1 serials whose k-th is the text of lo+k zero-padded to exactly three characters when shorter |
| UsersTable.SerialRange | usersTableScripts.py:84-88 | a range lo..hi has hi-lo+1 serials (none when hi < lo); the k-th is the text of lo+k with just enough leading zeros to make three characters, unchanged when already that long |
| UsersTable.SerialListOfRange | usersTableScripts.py:83-89 | `A-B` (bounds possibly zero-led) gives B-A+1 serials in ascending order whose k-th reads back as A+k and is the text of A+k zero-padded to exactly three characters when shorter |
| UsersTable.ZeroLedRange | usersTableScripts.py:83-88 | `005-007` gives exactly the serials `005`, `006`, `007` |
| UsersTable.RangeBounds | usersTableScripts.py:83-84 | splitting a range on its dash gives the two bound texts, which read back as their values |
| UsersTable.SerialRangeValues | usersTableScripts.py:84-88 | padding keeps the numeric value of every serial of a range |
| UsersTable.Serials | usersTableScripts.py:75-89 | the method, with its in-place padding loop, returns exactly `SerialList`, errors included |
| UsersTable.PadSerials | usersTableScripts.py:84-88 | converting lo..lo+n-1 to text and prepending `0` until each has three characters gives `SerialRange` |
| UsersTable.PadDone | usersTableScripts.py:87-88 | prepending zeros one at a time until the length reaches three is padding to width three |
| UsersTable.MaxCellId | usersTableScripts.py:44 | the maximum cell id bounds every row's id and is attained by some row |
| UsersTable.GroupIndices | usersTableScripts.py:50 | the positions of a cell's rows: only rows of that cell, all of them, in ascending order |
| UsersTable.RootRowFrom | usersTableScripts.py:49-60 | the row found is the first row of the cell, from the given position on, whose stem lacks `target`; none means every such row is a target |
| UsersTable.GetFileRoot | usersTableScripts.py:35-66 | the method returns exactly `FileRoots`, failures included |
| UsersTable.ScanGroup | usersTableScripts.py:45-60 | the `moveon`/`cnt` scan of one cell finds its first non-target row, or fails when the group runs out; the root and extension are that row's stem and extension |
| UsersTable.RootErrorSticks | usersTableScripts.py:44-50 | once a cell id has failed, the scan's result is that failure |
| UsersTable.FileRootsFailure | usersTableScripts.py:44-60 | an empty table fails; otherwise the scan fails exactly when some cell id up to the largest has no non-target row, and reports the first one |
| UsersTable.FileRootsContents | usersTableScripts.py:62-64 | on success roots and extensions have the same names; every cell id is covered; a name's root and extension come from the first cell id with that name (never overwritten) |
| UsersTable.FirstCellOfIsFirst | usersTableScripts.py:62 | the cell a name's root comes from precedes every other cell id whose root row has that name |
| UsersTable.CandidateParts | usersTableScripts.py:105-106 | a candidate built from dot-free root, serial and extension has that root as stem and that extension |
| UsersTable.CandidateOfRoot | usersTableScripts.py:55-56 | a candidate built from a file's stem and extension and a dot-free serial has the same stem and extension as the file |
| UsersTable.IndexOf | usersTableScripts.py:115 | `list.index`: the first position holding the name |
| UsersTable.Candidates | usersTableScripts.py:103-109 | one candidate per serial, root, serial and extension joined by dots, when the cell has a root; none when it does not |
| UsersTable.BuildFilenames | usersTableScripts.py:70-133 | the method returns exactly `BuildTable`, failures included |
| UsersTable.LogCandidates | usersTableScripts.py:112-129 | the matching loop of one session logs exactly its candidates that the file table has, in order, as `EmitAll` describes |
| UsersTable.ReconcileErrorSticks | usersTableScripts.py:100-101 | a session whose serials fail makes the whole reconciliation fail with that error |
| UsersTable.BuildTableRows | usersTableScripts.py:112-121 | all seven columns have equal length; each row names a file of the file table, carries the cell and file ids of the first row with that name, and is root.serial.ext of a session with the same cell, date and user |
| UsersTable.BuildTableUserIds | usersTableScripts.py:122-127 | a row's user id is the position of its user name in order of first appearance; two rows share an id exactly when they share a name |
| UsersTable.FirstSeenDistinct | usersTableScripts.py:124-125 | the order of first appearance lists each name once |
| UsersTable.NumberedNext | usersTableScripts.py:123-125 | logging a user keeps the ids the positions in order of first appearance |
| UsersTable.NumberedAppend | usersTableScripts.py:124-125 | a new name gets id `len(user_ids)`, its position at the end |
| UsersTable.FileRow | usersTableScripts.py:115-116 | the row `list.index` finds for a listed file name is a row of the table with that name |
| UsersTable.EmitAllBlock | usersTableScripts.py:112-127 | trying a session's candidates appends, in order, one row per candidate the file table has: the session's cell, date and user on each, the cell and file ids of the row the name is found at, and the user's id (a new user gets the next id on its first row, a session with no kept file leaves the ids alone) |
| UsersTable.BlockStep | usersTableScripts.py:116-127 | logging one more present candidate extends every column of the session's block by that candidate's entry |
| UsersTable.ReconcilePrefix | usersTableScripts.py:100-131 | later sessions only append: the table of the first sessions is a prefix of every column |
| UsersTable.SessionFiles | usersTableScripts.py:100-127 | session i's block follows the rows of the sessions before it, with every column pinned: its present candidates as file names, its cell, date and user repeated, the matching rows' cell and file ids, and its user's id |
| UsersTable.RootlessSession | usersTableScripts.py:104-109 | a session whose cell has no root adds no row |
| UsersTable.NodesAdded | usersTableScripts.py:186-204 | two lists as long as the table; a run's first row gives (nodes, 0), later rows the differences from the row before |
| UsersTable.RunTotals | usersTableScripts.py:191-202 | within a run the node increments sum to the current node count and the time increments to the time since the run began |
| KnossosNumNodes.QuotedField | knossosNumNodes.py:22-23 | the value read is the text between the first two quotes; a line without quotes has none |
| KnossosNumNodes.MarkerLine | knossosNumNodes.py:20-26 | an indented `key="v"...` line has that key and that quoted value |
| KnossosNumNodes.TimeMarkerLine | knossosNumNodes.py:20-23 | an indented `<time ms="T"...` line is a time marker for T |
| KnossosNumNodes.NodeMarkerLine | knossosNumNodes.py:24-26 | an indented `<activeNode id="N"...` line is an active-node marker for N |
| KnossosNumNodes.FirstComplete | knossosNumNodes.py:17-33 | the line count after which both values are first known, or none when they never both are |
| KnossosNumNodes.GetProperties | knossosNumNodes.py:12-36 | the loop with its early return gives exactly `Properties`: the values at the first line where both are known, else an error |
| KnossosNumNodes.FirstIsUnique | knossosNumNodes.py:32-33 | the early return happens at the first line after which both values are set |
| KnossosNumNodes.CompleteStays | knossosNumNodes.py:21-33 | each value, once found, stays found (a later line can only overwrite it), so once both are known both stay known |
| KnossosNumNodes.TimeIsLatest | knossosNumNodes.py:21-23 | the time is known exactly when some line is a time marker, and it is the last such marker's value |
| KnossosNumNodes.NodeIsLatest | knossosNumNodes.py:24-26 | the node id is known exactly when some line is an active-node marker, and it is the last such marker's value |
| KnossosNumNodes.PropertiesOkIffBothMarkers | knossosNumNodes.py:15-36 | the scan succeeds exactly when the file has both a time marker and an active-node marker, in either order |
| KnossosNumNodes.PropertiesAreLatest | knossosNumNodes.py:17-33 | the scan stops right after the first line at which both values are known; the time returned is that of the last time marker before that point and the node id that of the last active-node marker before it |
| KnossosNumNodes.Log.Append | knossosNumNodes.py:45-47 | appending adds one record after the earlier ones, which are unchanged |
| KnossosNumNodes.LogRecordRoundTrip | knossosNumNodes.py:44-47 | a record ends in one newline and splits on `,` back into the file name and the two values |
| KnossosNumNodes.WriteProperties | knossosNumNodes.py:40-48 | on success the log gains exactly `fname,nodes,time\n`; on failure it is unchanged |
| KnossosNumNodes.RunCli | knossosNumNodes.py:53-61 | fewer than three arguments, or no `ml` in the first, stops with the log unchanged; otherwise the file is scanned and its record appended |
| GetTuples.ContainsRegex | getTuples.cpp:45-53 | true exactly when the pattern occurs as a substring; no regular expressions |
| GetTuples.GetlinePiecesSpec | getTuples.cpp:61-67 | the empty string gives no piece; without a trailing delimiter there are count+1 pieces and joining gives the string back; with one, joining plus the delimiter does; no piece holds the delimiter |
| GetTuples.GetlineTrailing | getTuples.cpp:63-65 | a trailing delimiter ends the reading: the pieces are those of the text before it |
| GetTuples.SplitInto | getTuples.cpp:58-67 | the existing entries are kept and the pieces of the string are appended after them |
| GetTuples.LastPiece | getTuples.cpp:63-65 | the item being read when the string ends is the last piece, kept only when it is not empty |
| GetTuples.SplitToVector | getTuples.cpp:70-74 | a new vector holding exactly the pieces |
| GetTuples.TestSplit | getTuples.cpp:78-83 | the pieces shown, in order |
| GetTuples.GetlineOfJoin | getTuples.cpp:58-74 | words without the delimiter, the last one non-empty, joined with it, are read back as those words |
| GetTuples.BatPieces | getTuples.cpp:150-152 | the example string splits on `"` into its eight words in order |
| GetTuples.SplitDemo | getTuples.cpp:143-153 | `main` shows the eight words |
| GetTuples.Stoi | getTuples.cpp:92-96 | a read value is a 32-bit integer and is the decimal value of the text |
| GetTuples.StoiOfIntToString | getTuples.cpp:92-96 | `std::stoi` reads back a printed 32-bit integer |
| GetTuples.NodeLineIndices | getTuples.cpp:116-120 | the positions of the lines holding `node id`: only those, every one of them, each once, in file order |
| GetTuples.NodeLines | getTuples.cpp:116-123 | the lines `getTuples` hands to `addTuple` are the lines at those positions, in that order |
| GetTuples.EveryNodeLineListed | getTuples.cpp:116-121 | every line holding `node id` is handed to `addTuple` |
| GetTuples.NodeLinePieces | getTuples.cpp:89-91 | a node line written by the tracing tool, at any indentation without quotes, splits on `"` into the fields it was written from |
| GetTuples.NodeLineFound | getTuples.cpp:115-118 | a node line, at any indentation, contains the pattern `node id` |
| GetTuples.NodeLineTuple | getTuples.cpp:87-105 | a node line at any indentation is recognised, has 17 pieces, and gives the tuple of its id, x, y, z and time with intensity 0 |
| GetTuples.ScanTakesEveryNodeLine | getTuples.cpp:116-124 | without a throwing `std::stoi` every node line gives one tuple, in file order |
| GetTuples.ScanFailsOnBadField | getTuples.cpp:92-96 | reading fails exactly when some node line has a field `std::stoi` rejects |
| GetTuples.ThrowBeforeComment | getTuples.cpp:116-124 | a node line whose id `std::stoi` rejects ends the reading with no tuple, and a later `node id` line too short for `addTuple` is allowed since it is never read |
| GetTuples.FailureSticks | getTuples.cpp:116-124 | once a `std::stoi` has thrown, later lines change nothing |
| GetTuples.Nodes.constructor | getTuples.cpp:18-29 | a new object reads the given file and starts with no nodes and a zero count |
| GetTuples.Nodes.AddTuple | getTuples.cpp:87-107 | reads fields 1, 5, 7, 9 and 15 in that order, stopping at the first throwing `std::stoi`; appends exactly the tuple of the line (or changes nothing when one throws) and leaves the counter alone |
| GetTuples.Nodes.GetTuples | getTuples.cpp:112-126 | counts and adds exactly the node lines' tuples, in order, up to a throwing `std::stoi`; a consistent count stays consistent |

## Left out

- `df_to_sqltable` (usersTableScripts.py:138-182) is not modelled. It is a thin wrapper over SQLite table creation and insertion.
- pandas and numpy details are not modelled:
  - tables are sequences of records;
  - the row index is assumed to be the default `0..n-1` range;
  - the `filename`/`file_name` column fallback (usersTableScripts.py:51-54) is not represented.
- File opening, reading and appending are not modelled.
  - A file is its sequence of lines, and `getTuples` reads a fixed `fileLines`.
  - The log is the sequence of records appended to it.
  - `write_properties` writes a record and then `\n`; the model appends one record ending in `\n`.
- Diagnostics (`print`, `std::cout`) and `sys.exit` are left out; only their effect is kept: a dropped candidate, a stop, or an error outcome.
- `Nodes::write_file`, the commented-out constructor and the console output of `test_split` are left out.
- `Strings.ParseInt` and `GetTuples.Stoi` do not model the exact lexical rules of `int()` and `std::stoi`. They read an optional `-` followed by decimal digits; whitespace, `+` and trailing text are not modelled. `Stoi` adds the 32-bit range check.
- `Strings.Strip` treats only space, tab, newline, carriage return, vertical tab and form feed as white space, not the rest of Unicode white space.
- getTuples.cpp does not compile as written. The model follows the evident intent:
  - the delimiter is the single character `"`;
  - the file is a sequence of lines;
  - a tuple is a six-field record.
- GetTuples.Nodes.AddTuple requires only that every field it reaches before a throwing `std::stoi` exists (`ReadsInRange`); indexing past the end of the vector is undefined behaviour in the source.
- GetTuples.Nodes.GetTuples requires the same (`NodeLinesComplete`) only of the node lines it reaches, those before the first throwing `std::stoi`; lines after a throw are never read and nothing is required of them (`ThrowBeforeComment`).
- GetTuples.Nodes.GetTuples returns `false` where an exception escapes `getTuples`; the C++ code has no error result.
- GetTuples.Nodes.GetTuples treats `numNodes` as an unbounded integer. C++ `int` overflow of the counter is not modelled.
- GetTuples.SplitInto: aliasing of the `elems` vector passed by reference is not modelled; it takes and returns a sequence.
- UsersTable.SerialRange and UsersTable.PadSerials use unbounded integers and Python's `str()` on them.
