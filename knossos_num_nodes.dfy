/** The log appender: scan a tracing file for the elapsed time and the id of
    the active node, and append both, with the file's name, to a log.
    The tracing file is given as its sequence of lines and the log as the
    sequence of records appended to it. */
module KnossosNumNodes {
  import opened Wrappers
  import opened Strings

  /** What one line of a tracing file tells the scanner. */
  datatype Marker = TimeMarker(ms: int) | NodeMarker(id: int) | NoMarker

  /** The text between the first and the second `"` of `line`, read as an
      integer; `None` where indexing the quote-split pieces or reading the
      integer would raise (the scanner swallows both exceptions). */
  function QuotedInt(line: string): Option<int>
  {
    var parts := Split(line, '"');
    if |parts| >= 2 then ParseInt(parts[1]) else None
  }

  /** A line is a marker when its stripped text before the first `=` is
      exactly `<time ms` or `<activeNode id` and its quoted value is an
      integer. */
  function ParseMarker(line: string): Marker
  {
    var key := Split(Strip(line), '=')[0];
    if key == "<time ms" then
      (match QuotedInt(line) case Some(v) => TimeMarker(v) case None => NoMarker)
    else if key == "<activeNode id" then
      (match QuotedInt(line) case Some(v) => NodeMarker(v) case None => NoMarker)
    else NoMarker
  }

  /** The marker a line of the file holds; empty lines are skipped. */
  function MarkerOf(line: string): Marker
  {
    if line == [] then NoMarker else ParseMarker(line)
  }

  /** The markers of the lines of a file, line by line. */
  function Markers(lines: seq<string>): (ms: seq<Marker>)
    ensures |ms| == |lines|
  {
    seq(|lines|, i requires 0 <= i < |lines| => MarkerOf(lines[i]))
  }

  /** The values found so far; `None` until found. */
  datatype Found = Found(numNodes: Option<int>, timeMs: Option<int>)
  {
    predicate Complete()
    {
      numNodes.Some? && timeMs.Some?
    }
  }

  const Nothing := Found(None, None)

  /** The effect of one marker: it overwrites its value. */
  function Step(st: Found, m: Marker): Found
  {
    match m
    case TimeMarker(v) => st.(timeMs := Some(v))
    case NodeMarker(v) => st.(numNodes := Some(v))
    case NoMarker => st
  }

  /** The values after reading all of `ms`, without stopping early. */
  function After(ms: seq<Marker>): Found
  {
    if ms == [] then Nothing else Step(After(ms[..|ms| - 1]), ms[|ms| - 1])
  }

  datatype Props = Props(numNodes: int, timeMs: int)

  /** The scanner reached the end of the file with a value still unset;
      the source then raises while formatting its diagnostic. */
  datatype ScanError = MarkerMissing(found: Found)

  /** The length of the shortest prefix of `ms`, at least `k` long, after
      which both values are known. */
  function FirstComplete(ms: seq<Marker>, k: nat): (r: Option<nat>)
    ensures r.Some? ==> k <= r.value <= |ms| && After(ms[..r.value]).Complete()
    ensures r.Some? ==> forall j :: k <= j < r.value ==> !After(ms[..j]).Complete()
    ensures r.None? ==> forall j :: k <= j <= |ms| ==> !After(ms[..j]).Complete()
    decreases |ms| + 1 - k
  {
    if k > |ms| then None
    else if After(ms[..k]).Complete() then Some(k)
    else FirstComplete(ms, k + 1)
  }

  /** The values as they stand at the first marker after which both are
      known, or an error. */
  function PropertiesOf(ms: seq<Marker>): Result<Props, ScanError>
  {
    match FirstComplete(ms, 0)
    case Some(k) =>
      var f := After(ms[..k]);
      Ok(Props(f.numNodes.value, f.timeMs.value))
    case None => Err(MarkerMissing(After(ms)))
  }

  /** What `get_properties` returns for a file. */
  function Properties(lines: seq<string>): Result<Props, ScanError>
  {
    PropertiesOf(Markers(lines))
  }

  /** `get_properties`: read lines until both values are known. */
  method GetProperties(lines: seq<string>) returns (r: Result<Props, ScanError>)
    ensures r == Properties(lines)
  {
    ghost var ms := Markers(lines);
    var found := Nothing;
    var i := 0;
    while i < |lines|
      invariant 0 <= i <= |lines|
      invariant found == After(ms[..i])
      invariant forall j :: 0 <= j <= i ==> !After(ms[..j]).Complete()
    {
      var line := lines[i];
      var m := NoMarker;
      if line != [] {
        m := ParseMarker(line);
      }
      assert m == ms[i];
      found := Step(found, m);
      assert ms[..i + 1][..i] == ms[..i];
      i := i + 1;
      if found.Complete() {
        FirstIsUnique(ms, i);
        return Ok(Props(found.numNodes.value, found.timeMs.value));
      }
    }
    assert ms[..i] == ms;
    return Err(MarkerMissing(found));
  }

  lemma FirstIsUnique(ms: seq<Marker>, k: nat)
    requires k <= |ms| && After(ms[..k]).Complete()
    requires forall j :: 0 <= j < k ==> !After(ms[..j]).Complete()
    ensures FirstComplete(ms, 0) == Some(k)
  {
  }

  // ------------------------------------------------------------------
  // What the scan finds

  /** A value, once found, stays found; so once both are known, both stay
      known. */
  lemma {:induction false} CompleteStays(ms: seq<Marker>, k: nat)
    requires k <= |ms|
    ensures After(ms[..k]).timeMs.Some? ==> After(ms).timeMs.Some?
    ensures After(ms[..k]).numNodes.Some? ==> After(ms).numNodes.Some?
    ensures After(ms[..k]).Complete() ==> After(ms).Complete()
    decreases |ms|
  {
    if k < |ms| {
      assert ms[..|ms| - 1][..k] == ms[..k];
      CompleteStays(ms[..|ms| - 1], k);
    } else {
      assert ms[..k] == ms;
    }
  }

  /** The time is known exactly when some marker is a time marker, and it
      is the value of the last one. */
  lemma {:induction false} TimeIsLatest(ms: seq<Marker>)
    ensures After(ms).timeMs.Some? <==> exists i :: 0 <= i < |ms| && ms[i].TimeMarker?
    ensures After(ms).timeMs.Some? ==>
      exists i :: 0 <= i < |ms| && ms[i] == TimeMarker(After(ms).timeMs.value) &&
        forall m :: i < m < |ms| ==> !ms[m].TimeMarker?
    decreases |ms|
  {
    if ms != [] {
      var init, last := ms[..|ms| - 1], ms[|ms| - 1];
      TimeIsLatest(init);
      assert After(ms) == Step(After(init), last);
      if last.TimeMarker? {
        assert ms[|ms| - 1] == TimeMarker(After(ms).timeMs.value);
      } else if After(init).timeMs.Some? {
        var i :| 0 <= i < |init| && init[i] == TimeMarker(After(init).timeMs.value) &&
          forall m :: i < m < |init| ==> !init[m].TimeMarker?;
        assert ms[i] == init[i];
        forall m | i < m < |ms|
          ensures !ms[m].TimeMarker?
        {
          if m < |init| {
            assert ms[m] == init[m];
          }
        }
      } else {
        forall j | 0 <= j < |ms|
          ensures !ms[j].TimeMarker?
        {
          if j < |init| {
            assert ms[j] == init[j];
          }
        }
      }
    }
  }

  /** The node id is known exactly when some marker is an active-node
      marker, and it is the value of the last one. */
  lemma {:induction false} NodeIsLatest(ms: seq<Marker>)
    ensures After(ms).numNodes.Some? <==> exists i :: 0 <= i < |ms| && ms[i].NodeMarker?
    ensures After(ms).numNodes.Some? ==>
      exists i :: 0 <= i < |ms| && ms[i] == NodeMarker(After(ms).numNodes.value) &&
        forall m :: i < m < |ms| ==> !ms[m].NodeMarker?
    decreases |ms|
  {
    if ms != [] {
      var init, last := ms[..|ms| - 1], ms[|ms| - 1];
      NodeIsLatest(init);
      assert After(ms) == Step(After(init), last);
      if last.NodeMarker? {
        assert ms[|ms| - 1] == NodeMarker(After(ms).numNodes.value);
      } else if After(init).numNodes.Some? {
        var i :| 0 <= i < |init| && init[i] == NodeMarker(After(init).numNodes.value) &&
          forall m :: i < m < |init| ==> !init[m].NodeMarker?;
        assert ms[i] == init[i];
        forall m | i < m < |ms|
          ensures !ms[m].NodeMarker?
        {
          if m < |init| {
            assert ms[m] == init[m];
          }
        }
      } else {
        forall j | 0 <= j < |ms|
          ensures !ms[j].NodeMarker?
        {
          if j < |init| {
            assert ms[j] == init[j];
          }
        }
      }
    }
  }

  /** The scan succeeds exactly when the file holds both a time marker and
      an active-node marker, in either order. */
  lemma PropertiesOkIffBothMarkers(lines: seq<string>)
    ensures Properties(lines).Ok? <==>
      (exists i :: 0 <= i < |lines| && MarkerOf(lines[i]).TimeMarker?) &&
      (exists i :: 0 <= i < |lines| && MarkerOf(lines[i]).NodeMarker?)
  {
    var ms := Markers(lines);
    assert forall i :: 0 <= i < |lines| ==> ms[i] == MarkerOf(lines[i]);
    TimeIsLatest(ms);
    NodeIsLatest(ms);
    var r := FirstComplete(ms, 0);
    if r.Some? {
      CompleteStays(ms, r.value);
    } else {
      assert ms[..|ms|] == ms;
    }
  }

  /** The values returned are those of the last time marker and the last
      active-node marker among the lines read before the scan stops, which
      is right after the first line at which both are known. */
  lemma PropertiesAreLatest(lines: seq<string>)
    requires Properties(lines).Ok?
    ensures var p, k := Properties(lines).value, FirstComplete(Markers(lines), 0).value;
      k <= |lines| &&
      (forall j :: 0 <= j < k ==> !After(Markers(lines)[..j]).Complete()) &&
      (exists i :: 0 <= i < k && MarkerOf(lines[i]) == TimeMarker(p.timeMs) &&
        forall m :: i < m < k ==> !MarkerOf(lines[m]).TimeMarker?) &&
      (exists i :: 0 <= i < k && MarkerOf(lines[i]) == NodeMarker(p.numNodes) &&
        forall m :: i < m < k ==> !MarkerOf(lines[m]).NodeMarker?)
  {
    var ms := Markers(lines);
    var k := FirstComplete(ms, 0).value;
    var pre := ms[..k];
    assert forall i :: 0 <= i < k ==> pre[i] == MarkerOf(lines[i]);
    TimeIsLatest(pre);
    NodeIsLatest(pre);
  }

  // ------------------------------------------------------------------
  // Recognising marker lines

  /** The quoted value is the text between the first two quotes; a line
      without a quote has none. */
  lemma QuotedField(a: string, b: string, c: string)
    requires '"' !in a && '"' !in b
    ensures QuotedInt(a + ['"'] + b + ['"'] + c) == ParseInt(b)
    ensures QuotedInt(a) == None
  {
    SplitOfFree(a, '"');
    SplitOfFree(b, '"');
    assert a + ['"'] + b + ['"'] + c == a + ['"'] + (b + ['"'] + c);
    SplitAround(a, b + ['"'] + c, '"');
    SplitAround(b, c, '"');
  }

  /** The text before the first `=` of the stripped line, for a line made
      of leading white space and `key` followed by `=` and then a quote. */
  lemma KeyOfLine(ws: string, key: string, rest: string)
    requires AllSpace(ws) && key != [] && !IsSpace(key[0]) && '=' !in key
    ensures Split(Strip(ws + key + ['=', '"'] + rest), '=')[0] == key
  {
    var t := key + ['=', '"'] + rest;
    assert ws + key + ['=', '"'] + rest == ws + t;
    TrimLeftAfterSpace(ws, t);
    var m := |key| + 1;
    assert t[m] == '"';
    TrimRightKeepsPrefix(t, m);
    var s := TrimRight(t);
    assert s == key + ['='] + s[|key| + 1..] by {
      assert s[..m + 1] == t[..m + 1];
    }
    SplitAround(key, s[|key| + 1..], '=');
    SplitOfFree(key, '=');
  }

  /** A line made of white space, a key without `=` or quotes, `="`, an
      integer, `"` and anything else has that key and that value. */
  lemma MarkerLine(ws: string, key: string, v: int, rest: string)
    requires AllSpace(ws) && key != [] && !IsSpace(key[0]) && '=' !in key && '"' !in key
    ensures var line := ws + key + ['=', '"'] + IntToString(v) + ['"'] + rest;
      Split(Strip(line), '=')[0] == key && QuotedInt(line) == Some(v)
  {
    var num := IntToString(v);
    var line := ws + key + ['=', '"'] + num + ['"'] + rest;
    assert line == ws + key + ['=', '"'] + (num + ['"'] + rest);
    KeyOfLine(ws, key, num + ['"'] + rest);
    var pre := ws + key + ['='];
    assert '"' !in pre by {
      assert forall k :: 0 <= k < |ws| ==> ws[k] != '"';
    }
    assert line == pre + ['"'] + num + ['"'] + rest;
    IntToStringPlain(v);
    QuotedField(pre, num, rest);
    ParseIntToString(v);
  }

  /** A line `<time ms="T"...`, however indented, is a time marker for T. */
  lemma TimeMarkerLine(ws: string, v: int, rest: string)
    requires AllSpace(ws)
    ensures ParseMarker(ws + "<time ms=\"" + IntToString(v) + "\"" + rest) == TimeMarker(v)
  {
    var key := "<time ms";
    assert ws + "<time ms=\"" + IntToString(v) + "\"" + rest == ws + key + ['=', '"'] + IntToString(v) + ['"'] + rest;
    assert '=' !in key && '"' !in key;
    MarkerLine(ws, key, v, rest);
  }

  /** A line `<activeNode id="N"...`, however indented, is an active-node
      marker for N. */
  lemma NodeMarkerLine(ws: string, v: int, rest: string)
    requires AllSpace(ws)
    ensures ParseMarker(ws + "<activeNode id=\"" + IntToString(v) + "\"" + rest) == NodeMarker(v)
  {
    var key := "<activeNode id";
    assert ws + "<activeNode id=\"" + IntToString(v) + "\"" + rest == ws + key + ['=', '"'] + IntToString(v) + ['"'] + rest;
    assert '=' !in key && '"' !in key;
    MarkerLine(ws, key, v, rest);
  }

  // ------------------------------------------------------------------
  // The log

  /** The log file: the records appended to it, in order. */
  class Log {
    var entries: seq<string>

    constructor (existing: seq<string>)
      ensures entries == existing
    {
      entries := existing;
    }

    /** Opening the file for appending and writing `record`. */
    method Append(record: string)
      modifies this
      ensures entries == old(entries) + [record]
    {
      entries := entries + [record];
    }
  }

  /** The line `write_properties` appends: `name,nodes,time` and a newline. */
  function LogRecord(fname: string, p: Props): string
  {
    fname + "," + IntToString(p.numNodes) + "," + IntToString(p.timeMs) + "\n"
  }

  /** A log record reads back as the file name and the two values, as long
      as the name has no comma or newline of its own. */
  lemma LogRecordRoundTrip(fname: string, p: Props)
    requires ',' !in fname && '\n' !in fname
    ensures var rec := LogRecord(fname, p);
      rec[|rec| - 1] == '\n' && '\n' !in rec[..|rec| - 1] &&
      var fields := Split(rec[..|rec| - 1], ',');
      |fields| == 3 && fields[0] == fname &&
      ParseInt(fields[1]) == Some(p.numNodes) && ParseInt(fields[2]) == Some(p.timeMs)
  {
    var n, t := IntToString(p.numNodes), IntToString(p.timeMs);
    IntToStringPlain(p.numNodes);
    IntToStringPlain(p.timeMs);
    var rec := LogRecord(fname, p);
    assert rec[..|rec| - 1] == fname + [','] + n + [','] + t;
    assert Join([fname, n, t], ',') == fname + [','] + n + [','] + t by {
      assert [fname, n][..1] == [fname];
      assert Join([fname, n], ',') == fname + [','] + n;
      assert [fname, n, t][..2] == [fname, n];
    }
    SplitJoin([fname, n, t], ',');
    ParseIntToString(p.numNodes);
    ParseIntToString(p.timeMs);
  }

  /** `write_properties`: scan the file and append its record to the log;
      when the scan fails nothing is written. */
  method WriteProperties(fname: string, lines: seq<string>, log: Log) returns (r: Result<Props, ScanError>)
    modifies log
    ensures r == Properties(lines)
    ensures log.entries == if r.Ok? then old(log.entries) + [LogRecord(fname, r.value)] else old(log.entries)
  {
    r := GetProperties(lines);
    if r.Ok? {
      log.Append(LogRecord(fname, r.value));
    }
  }

  datatype CliOutcome = Usage | NotAnnotationFile | Failed(error: ScanError) | Logged(props: Props)

  /** The entry point `script nmlfile logfile`: `args[0]` is the script,
      `fileLines` the contents of the file named by `args[1]`, and `log`
      the file named by `args[2]`. */
  method RunCli(args: seq<string>, fileLines: seq<string>, log: Log) returns (out: CliOutcome)
    modifies log
    ensures |args| < 3 ==> out == Usage
    ensures |args| >= 3 && !Contains(args[1], "ml") ==> out == NotAnnotationFile
    ensures out.Usage? || out.NotAnnotationFile? ==> log.entries == old(log.entries)
    ensures |args| >= 3 && Contains(args[1], "ml") ==>
      match Properties(fileLines)
      case Ok(p) => out == Logged(p) && log.entries == old(log.entries) + [LogRecord(args[1], p)]
      case Err(e) => out == Failed(e) && log.entries == old(log.entries)
  {
    if |args| < 3 {
      return Usage;
    }
    if !Contains(args[1], "ml") {
      return NotAnnotationFile;
    }
    var r := WriteProperties(args[1], fileLines, log);
    match r
    case Ok(p) => out := Logged(p);
    case Err(e) => out := Failed(e);
  }
}
