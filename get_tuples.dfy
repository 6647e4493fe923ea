/** The node reader of the C++ program: every line of a tracing file that
    holds a node is split on `"` and turned into a tuple
    (id, x, y, z, time, intensity), which is appended to the object's node
    list while its node counter is incremented. The file is given as its
    sequence of lines; the delimiter is a single character, as the code
    intends. */
module GetTuples {
  import opened Wrappers
  import opened Strings

  /** `contains_regex`: a plain substring search, no regular expression. */
  function ContainsRegex(line: string, pattern: string): (found: bool)
    ensures found <==> exists i :: OccursAt(line, pattern, i)
  {
    Contains(line, pattern)
  }

  // ------------------------------------------------------------------
  // Splitting with `std::getline`

  /** The pieces `std::getline(ss, item, d)` reads from `s`: the pieces of a
      plain split, except that nothing is read after a trailing delimiter
      (and so nothing at all from the empty string). */
  function GetlinePieces(s: string, d: char): seq<string>
  {
    var ps := Split(s, d);
    if ps[|ps| - 1] == [] then ps[..|ps| - 1] else ps
  }

  /** The empty string yields no piece; a string not ending in the delimiter
      yields one piece more than it has delimiters, and joining them gives
      the string back; a string ending in it is given back by joining the
      pieces and adding the delimiter. No piece holds the delimiter. */
  lemma GetlinePiecesSpec(s: string, d: char)
    ensures s == [] ==> GetlinePieces(s, d) == []
    ensures s != [] && s[|s| - 1] != d ==>
      |GetlinePieces(s, d)| == multiset(s)[d] + 1 && Join(GetlinePieces(s, d), d) == s
    ensures s != [] && s[|s| - 1] == d ==> Join(GetlinePieces(s, d), d) + [d] == s
    ensures forall k :: 0 <= k < |GetlinePieces(s, d)| ==> d !in GetlinePieces(s, d)[k]
  {
    SplitPiecesFree(s, d);
    if s != [] {
      if s[|s| - 1] != d {
        SplitCount(s, d);
        JoinSplit(s, d);
      } else {
        GetlineTrailing(s, d);
      }
    }
  }

  /** A trailing delimiter: the pieces are those of the string before it. */
  lemma GetlineTrailing(s: string, d: char)
    requires s != [] && s[|s| - 1] == d
    ensures GetlinePieces(s, d) == Split(s[..|s| - 1], d)
    ensures Join(GetlinePieces(s, d), d) + [d] == s
  {
    var init := s[..|s| - 1];
    assert s == init + [d];
    SplitSnoc(init, d, d);
    JoinSplit(init, d);
  }

  /** The accumulating `split(s, delim, elems)`: reads pieces with
      `std::getline` and appends each to `elems`. */
  method SplitInto(s: string, d: char, elems: seq<string>) returns (r: seq<string>)
    ensures r == elems + GetlinePieces(s, d)
  {
    r := elems;
    var item: string := [];
    var i := 0;
    while i < |s|
      invariant 0 <= i <= |s|
      invariant r + [item] == elems + Split(s[..i], d)
    {
      var c := s[i];
      assert s[..i + 1] == s[..i] + [c];
      SplitSnoc(s[..i], c, d);
      ExtendAfter(elems, Split(s[..i], d), c, d);
      if c == d {
        r := r + [item];
        item := [];
      } else {
        assert (r + [item])[..|r|] == r;
        item := item + [c];
      }
      i := i + 1;
    }
    assert s[..i] == s;
    LastPiece(r, item, elems, Split(s, d));
    if item != [] {
      r := r + [item];
    }
  }

  /** After the last character the item being read is the last piece; it
      is kept only when it is not empty. */
  lemma LastPiece(r: seq<string>, item: string, elems: seq<string>, ps: seq<string>)
    requires |ps| >= 1 && r + [item] == elems + ps
    ensures (if item != [] then r + [item] else r) ==
      elems + (if ps[|ps| - 1] == [] then ps[..|ps| - 1] else ps)
  {
    assert (elems + ps)[|elems + ps| - 1] == item;
    if item == [] {
      assert elems + ps[..|ps| - 1] == (elems + ps)[..|elems + ps| - 1];
      assert (r + [item])[..|r|] == r;
    }
  }

  /** The two-argument `split(s, delim)`: the pieces in a new vector. */
  method SplitToVector(s: string, d: char) returns (elems: seq<string>)
    ensures elems == GetlinePieces(s, d)
  {
    elems := SplitInto(s, d, []);
  }

  /** `test_split`: the pieces it prints, in order. */
  method TestSplit(s: string, d: char) returns (shown: seq<string>)
    ensures shown == GetlinePieces(s, d)
  {
    shown := SplitToVector(s, d);
  }

  const Bat := "I'd\"rather\"date\"a\"spider\"or\"a\"bat"

  /** The test string of `main` splits on `"` into its eight words. */
  lemma BatPieces()
    ensures GetlinePieces(Bat, '"') == ["I'd", "rather", "date", "a", "spider", "or", "a", "bat"]
  {
    var p1 := ["I'd"];
    var p2 := p1 + ["rather"];
    JoinSnoc(p1, "rather", '"');
    assert Join(p2, '"') == "I'd\"rather";
    var p3 := p2 + ["date"];
    JoinSnoc(p2, "date", '"');
    assert Join(p3, '"') == "I'd\"rather\"date";
    var p4 := p3 + ["a"];
    JoinSnoc(p3, "a", '"');
    assert Join(p4, '"') == "I'd\"rather\"date\"a";
    var p5 := p4 + ["spider"];
    JoinSnoc(p4, "spider", '"');
    assert Join(p5, '"') == "I'd\"rather\"date\"a\"spider";
    var p6 := p5 + ["or"];
    JoinSnoc(p5, "or", '"');
    assert Join(p6, '"') == "I'd\"rather\"date\"a\"spider\"or";
    var p7 := p6 + ["a"];
    JoinSnoc(p6, "a", '"');
    assert Join(p7, '"') == "I'd\"rather\"date\"a\"spider\"or\"a";
    var p8 := p7 + ["bat"];
    JoinSnoc(p7, "bat", '"');
    assert Join(p8, '"') == "I'd\"rather\"date\"a\"spider\"or\"a\"bat";
    GetlineOfJoin(p8, '"', Bat);
  }

  /** Words without the delimiter, the last one not empty, joined with it:
      `std::getline` reads the words back. */
  lemma GetlineOfJoin(ws: seq<string>, d: char, s: string)
    requires |ws| >= 1 && ws[|ws| - 1] != []
    requires forall k :: 0 <= k < |ws| ==> d !in ws[k]
    requires s == Join(ws, d)
    ensures GetlinePieces(s, d) == ws
  {
    SplitJoin(ws, d);
  }

  /** `main`: split the test string on `"` and show the pieces. */
  method SplitDemo() returns (shown: seq<string>)
    ensures shown == ["I'd", "rather", "date", "a", "spider", "or", "a", "bat"]
  {
    shown := TestSplit(Bat, '"');
    BatPieces();
  }

  // ------------------------------------------------------------------
  // Node tuples

  const IntMin := -0x8000_0000
  const IntMax := 0x7fff_ffff

  /** `std::stoi`: a decimal integer that fits a 32-bit `int`; `None` where
      it throws (`invalid_argument` or `out_of_range`). */
  function Stoi(s: string): (r: Option<int>)
    ensures r.Some? ==> IntMin <= r.value <= IntMax && ParseInt(s) == r
  {
    match ParseInt(s)
    case Some(v) => if IntMin <= v <= IntMax then Some(v) else None
    case None => None
  }

  /** id, x, y, z, time (ms), intensity. */
  datatype NodeTuple = NodeTuple(id: int, x: int, y: int, z: int, time: int, intensity: int)

  /** The pattern that marks a node line. */
  const NodePattern := "node id"

  /** The tuple of a node line: fields 1, 5, 7, 9 and 15 of its quote-split
      pieces, intensity 0; `None` where a `std::stoi` throws, and for a line
      too short to have those fields (which `addTuple` must not be given
      unless an earlier `std::stoi` throws first). */
  function TupleOf(line: string): Option<NodeTuple>
  {
    var e := GetlinePieces(line, '"');
    if |e| < 16 then None
    else match (Stoi(e[1]), Stoi(e[5]), Stoi(e[7]), Stoi(e[9]), Stoi(e[15]))
    case (Some(id), Some(x), Some(y), Some(z), Some(t)) => Some(NodeTuple(id, x, y, z, t, 0))
    case _ => None
  }

  /** `addTuple` reads fields 1, 5, 7, 9 and 15 in that order and stops at
      the first `std::stoi` that throws; every field it reaches exists.
      Past the end of the vector the C++ code has undefined behaviour. */
  predicate ReadsInRange(e: seq<string>)
  {
    |e| >= 2 && (Stoi(e[1]).Some? ==>
    |e| >= 6 && (Stoi(e[5]).Some? ==>
    |e| >= 8 && (Stoi(e[7]).Some? ==>
    |e| >= 10 && (Stoi(e[9]).Some? ==> |e| >= 16))))
  }

  /** Every node line that `getTuples` reaches, that is one before which no
      `std::stoi` has thrown, can be read by `addTuple` without indexing
      past the end of its pieces; lines after a throw are never read. */
  ghost predicate NodeLinesComplete(lines: seq<string>)
  {
    forall i :: 0 <= i < |lines| && ContainsRegex(lines[i], NodePattern) && !ScanTuples(lines[..i]).failed ==>
      ReadsInRange(GetlinePieces(lines[i], '"'))
  }

  /** What reading `lines` yields: the tuples of the node lines up to the
      first one whose `std::stoi` throws, and whether one did. */
  datatype TupleScan = TupleScan(tuples: seq<NodeTuple>, failed: bool)

  function ScanTuples(lines: seq<string>): TupleScan
  {
    if lines == [] then TupleScan([], false)
    else ScanLine(ScanTuples(lines[..|lines| - 1]), lines[|lines| - 1])
  }

  /** One more line: a node line adds its tuple or ends the reading. */
  function ScanLine(prev: TupleScan, line: string): TupleScan
  {
    if prev.failed || !ContainsRegex(line, NodePattern) then prev
    else match TupleOf(line)
      case Some(t) => prev.(tuples := prev.tuples + [t])
      case None => prev.(failed := true)
  }

  /** The positions of the lines holding `node id`: only those, all of them,
      each once and in file order. */
  function NodeLineIndices(lines: seq<string>): (g: seq<nat>)
    ensures forall k :: 0 <= k < |g| ==> g[k] < |lines| && ContainsRegex(lines[g[k]], NodePattern)
    ensures forall i :: 0 <= i < |lines| && ContainsRegex(lines[i], NodePattern) ==> i in g
    ensures forall k, l :: 0 <= k < l < |g| ==> g[k] < g[l]
  {
    if lines == [] then []
    else
      var n := |lines| - 1;
      var prev := NodeLineIndices(lines[..n]);
      assert forall i :: 0 <= i < n ==> lines[..n][i] == lines[i];
      if ContainsRegex(lines[n], NodePattern) then prev + [n] else prev
  }

  /** The lines `getTuples` hands to `addTuple`: every line holding
      `node id`, each once, in file order. */
  function NodeLines(lines: seq<string>): (r: seq<string>)
    ensures var g := NodeLineIndices(lines);
      |r| == |g| && forall k :: 0 <= k < |r| ==> r[k] == lines[g[k]]
  {
    if lines == [] then []
    else
      var n := |lines| - 1;
      var prev := NodeLines(lines[..n]);
      var found := ContainsRegex(lines[n], NodePattern);
      assert NodeLineIndices(lines) ==
        if found then NodeLineIndices(lines[..n]) + [n] else NodeLineIndices(lines[..n]);
      if found then prev + [lines[n]] else prev
  }

  /** No line holding `node id` is missed. */
  lemma EveryNodeLineListed(lines: seq<string>)
    ensures forall i :: 0 <= i < |lines| && ContainsRegex(lines[i], NodePattern) ==> lines[i] in NodeLines(lines)
  {
    var g, r := NodeLineIndices(lines), NodeLines(lines);
    forall i | 0 <= i < |lines| && ContainsRegex(lines[i], NodePattern)
      ensures lines[i] in r
    {
      var k :| 0 <= k < |g| && g[k] == i;
      assert r[k] == lines[i];
    }
  }

  /** Without a throwing `std::stoi`, every node line gives exactly one
      tuple, in file order. */
  lemma {:induction false} ScanTakesEveryNodeLine(lines: seq<string>)
    requires !ScanTuples(lines).failed
    ensures var ts, ns := ScanTuples(lines).tuples, NodeLines(lines);
      |ts| == |ns| && forall k :: 0 <= k < |ns| ==> TupleOf(ns[k]) == Some(ts[k])
    decreases |lines|
  {
    if lines != [] {
      var init := lines[..|lines| - 1];
      ScanTakesEveryNodeLine(init);
    }
  }

  /** Reading fails exactly when some node line has a field `std::stoi`
      rejects. */
  lemma {:induction false} ScanFailsOnBadField(lines: seq<string>)
    ensures ScanTuples(lines).failed <==>
      exists i :: 0 <= i < |lines| && ContainsRegex(lines[i], NodePattern) && TupleOf(lines[i]).None?
    decreases |lines|
  {
    if lines != [] {
      var init, last := lines[..|lines| - 1], lines[|lines| - 1];
      ScanFailsOnBadField(init);
      assert ScanTuples(lines) == ScanLine(ScanTuples(init), last);
      if ScanTuples(init).failed {
        var i :| 0 <= i < |init| && ContainsRegex(init[i], NodePattern) && TupleOf(init[i]).None?;
        assert lines[i] == init[i];
      } else if ContainsRegex(last, NodePattern) && TupleOf(last).None? {
        assert lines[|lines| - 1] == last;
      } else {
        forall i | 0 <= i < |lines|
          ensures !(ContainsRegex(lines[i], NodePattern) && TupleOf(lines[i]).None?)
        {
          if i < |init| {
            assert lines[i] == init[i];
          }
        }
      }
    }
  }

  /** The line a tracing tool writes for a node, after its indentation. */
  function NodeLine(indent: string, id: int, radius: string, x: int, y: int, z: int, inVp: string, inMag: string, time: int): string
  {
    Join(NodeLineFields(indent, id, radius, x, y, z, inVp, inMag, time), '"')
  }

  function NodeLineFields(indent: string, id: int, radius: string, x: int, y: int, z: int, inVp: string, inMag: string, time: int): seq<string>
  {
    [indent + "<node id=", IntToString(id), " radius=", radius, " x=", IntToString(x), " y=", IntToString(y),
     " z=", IntToString(z), " inVp=", inVp, " inMag=", inMag, " time=", IntToString(time), "/>"]
  }

  lemma {:induction false} JoinStartsWithFirst(ps: seq<string>, d: char)
    requires |ps| >= 1
    ensures |Join(ps, d)| >= |ps[0]| && Join(ps, d)[..|ps[0]|] == ps[0]
    decreases |ps|
  {
    if |ps| > 1 {
      JoinStartsWithFirst(ps[..|ps| - 1], d);
    }
  }

  /** The quote-split pieces of a node line are the fields it was written
      from. */
  lemma NodeLinePieces(indent: string, id: int, radius: string, x: int, y: int, z: int, inVp: string, inMag: string, time: int)
    requires '"' !in indent && '"' !in radius && '"' !in inVp && '"' !in inMag
    ensures GetlinePieces(NodeLine(indent, id, radius, x, y, z, inVp, inMag, time), '"') ==
      NodeLineFields(indent, id, radius, x, y, z, inVp, inMag, time)
  {
    var ps := NodeLineFields(indent, id, radius, x, y, z, inVp, inMag, time);
    IntToStringPlain(id);
    IntToStringPlain(x);
    IntToStringPlain(y);
    IntToStringPlain(z);
    IntToStringPlain(time);
    forall k | 0 <= k < |ps|
      ensures '"' !in ps[k]
    {
    }
    SplitJoin(ps, '"');
  }

  /** A node line is recognised, and its tuple holds the id, the three
      coordinates and the time written into it, with intensity 0. */
  lemma NodeLineTuple(indent: string, id: int, radius: string, x: int, y: int, z: int, inVp: string, inMag: string, time: int)
    requires '"' !in indent && '"' !in radius && '"' !in inVp && '"' !in inMag
    requires IntMin <= id <= IntMax && IntMin <= x <= IntMax && IntMin <= y <= IntMax
    requires IntMin <= z <= IntMax && IntMin <= time <= IntMax
    ensures var line := NodeLine(indent, id, radius, x, y, z, inVp, inMag, time);
      ContainsRegex(line, NodePattern) &&
      |GetlinePieces(line, '"')| == 17 &&
      TupleOf(line) == Some(NodeTuple(id, x, y, z, time, 0))
  {
    var line := NodeLine(indent, id, radius, x, y, z, inVp, inMag, time);
    var e := NodeLineFields(indent, id, radius, x, y, z, inVp, inMag, time);
    NodeLinePieces(indent, id, radius, x, y, z, inVp, inMag, time);
    NodeLineFound(indent, id, radius, x, y, z, inVp, inMag, time);
    assert |e| == 17 && e[1] == IntToString(id) && e[5] == IntToString(x) && e[7] == IntToString(y);
    assert e[9] == IntToString(z) && e[15] == IntToString(time);
    StoiOfIntToString(id);
    StoiOfIntToString(x);
    StoiOfIntToString(y);
    StoiOfIntToString(z);
    StoiOfIntToString(time);
    TupleOfFields(line, e, NodeTuple(id, x, y, z, time, 0));
  }

  /** The tuple of a line whose fields 1, 5, 7, 9 and 15 `std::stoi` reads. */
  lemma TupleOfFields(line: string, e: seq<string>, t: NodeTuple)
    requires GetlinePieces(line, '"') == e && |e| >= 16
    requires Stoi(e[1]) == Some(t.id) && Stoi(e[5]) == Some(t.x) && Stoi(e[7]) == Some(t.y)
    requires Stoi(e[9]) == Some(t.z) && Stoi(e[15]) == Some(t.time) && t.intensity == 0
    ensures TupleOf(line) == Some(t)
  {
  }

  /** A node line holds the pattern just after its indentation and `<`. */
  lemma NodeLineFound(indent: string, id: int, radius: string, x: int, y: int, z: int, inVp: string, inMag: string, time: int)
    ensures ContainsRegex(NodeLine(indent, id, radius, x, y, z, inVp, inMag, time), NodePattern)
  {
    var ps := NodeLineFields(indent, id, radius, x, y, z, inVp, inMag, time);
    var line := NodeLine(indent, id, radius, x, y, z, inVp, inMag, time);
    JoinStartsWithFirst(ps, '"');
    assert OccursAt(line, NodePattern, |indent| + 1) by {
      var n := |indent|;
      assert line[..n + 9] == indent + "<node id=";
      assert line[n + 1..n + 8] == (indent + "<node id=")[n + 1..n + 8];
    }
  }

  /** `std::stoi` reads back a printed 32-bit integer. */
  lemma StoiOfIntToString(v: int)
    requires IntMin <= v <= IntMax
    ensures Stoi(IntToString(v)) == Some(v)
  {
    ParseIntToString(v);
  }

  // ------------------------------------------------------------------
  // The Nodes object

  /** `Nodes`: the file it reads, the number of nodes found and their
      tuples. */
  class Nodes {
    /** The lines of the file named by the object's `filename`. */
    const fileLines: seq<string>
    var numNodes: int
    var nodeList: seq<NodeTuple>

    /** The counter agrees with the list, as it does from construction on
        while only `getTuples` adds tuples. */
    ghost predicate Consistent()
      reads this
    {
      numNodes == |nodeList|
    }

    constructor (lines: seq<string>)
      ensures fileLines == lines && numNodes == 0 && nodeList == []
      ensures Consistent()
    {
      fileLines := lines;
      numNodes := 0;
      nodeList := [];
    }

    /** `addTuple`: append the tuple of `line`; `false` where a `std::stoi`
        throws, and then nothing changes. The counter is left alone. */
    method AddTuple(line: string) returns (ok: bool)
      requires ReadsInRange(GetlinePieces(line, '"'))
      modifies this`nodeList
      ensures ok == TupleOf(line).Some?
      ensures nodeList == if ok then old(nodeList) + [TupleOf(line).value] else old(nodeList)
      ensures numNodes == old(numNodes)
    {
      var elems := SplitToVector(line, '"');
      var id := Stoi(elems[1]);
      if id.None? {
        return false;
      }
      var x := Stoi(elems[5]);
      if x.None? {
        return false;
      }
      var y := Stoi(elems[7]);
      if y.None? {
        return false;
      }
      var z := Stoi(elems[9]);
      if z.None? {
        return false;
      }
      var time := Stoi(elems[15]);
      if time.None? {
        return false;
      }
      nodeList := nodeList + [NodeTuple(id.value, x.value, y.value, z.value, time.value, 0)];
      ok := true;
    }

    method GetTuples() returns (ok: bool)
      requires NodeLinesComplete(fileLines)
      modifies this`numNodes, this`nodeList
      ensures ok == !ScanTuples(fileLines).failed
      ensures nodeList == old(nodeList) + ScanTuples(fileLines).tuples
      ensures numNodes == old(numNodes) + |ScanTuples(fileLines).tuples|
      ensures old(Consistent()) ==> Consistent()
    {
      var i := 0;
      while i < |fileLines|
        invariant 0 <= i <= |fileLines|
        invariant !ScanTuples(fileLines[..i]).failed
        invariant nodeList == old(nodeList) + ScanTuples(fileLines[..i]).tuples
        invariant numNodes == old(numNodes) + |ScanTuples(fileLines[..i]).tuples|
      {
        var line := fileLines[i];
        ScanStep(fileLines, i);
        var found := ContainsRegex(line, NodePattern);
        if found {
          assert ReadsInRange(GetlinePieces(line, '"'));
          var added := AddTuple(line);
          if !added {
            FailureSticks(fileLines, i + 1);
            return false;
          }
          numNodes := numNodes + 1;
        }
        i := i + 1;
      }
      assert fileLines[..i] == fileLines;
      return true;
    }
  }

  /** Reading one more line of the file. */
  lemma ScanStep(lines: seq<string>, i: nat)
    requires i < |lines|
    ensures ScanTuples(lines[..i + 1]) == ScanLine(ScanTuples(lines[..i]), lines[i])
  {
    assert lines[..i + 1][..i] == lines[..i];
    assert lines[..i + 1][i] == lines[i];
  }

  /** A node line whose id is not a number ends the reading at once; the
      node-id comment after it is never read, so nothing is required of it. */
  lemma ThrowBeforeComment()
    ensures var lines := ["<node id=\"x\"/>", "<!-- node id -->"];
      NodeLinesComplete(lines) && ScanTuples(lines).failed && ScanTuples(lines).tuples == []
  {
    var line := "<node id=\"x\"/>";
    var lines := [line, "<!-- node id -->"];
    var p1 := ["<node id="];
    var p2 := p1 + ["x"];
    JoinSnoc(p1, "x", '"');
    var p3 := p2 + ["/>"];
    JoinSnoc(p2, "/>", '"');
    assert Join(p3, '"') == line;
    GetlineOfJoin(p3, '"', line);
    assert OccursAt(line, NodePattern, 1) by {
      assert line[1..8] == NodePattern;
    }
    assert ParseInt("x") == None;
    assert TupleOf(line) == None;
    assert ScanTuples(lines[..1]) == ScanLine(ScanTuples([]), line);
    assert ScanTuples(lines[..1]).failed;
    FailureSticks(lines, 1);
    assert ReadsInRange(GetlinePieces(line, '"'));
  }

  /** Once reading has failed, later lines change nothing. */
  lemma {:induction false} FailureSticks(lines: seq<string>, k: nat)
    requires k <= |lines| && ScanTuples(lines[..k]).failed
    ensures ScanTuples(lines) == ScanTuples(lines[..k])
    decreases |lines|
  {
    if k < |lines| {
      var init := lines[..|lines| - 1];
      assert init[..k] == lines[..k];
      FailureSticks(init, k);
    } else {
      assert lines[..k] == lines;
    }
  }
}
