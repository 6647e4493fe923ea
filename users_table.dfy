/** The user-table scripts: reconcile the hand-typed table of tracing
    sessions (cell, file serials, date, user) with the table of tracing files
    (one row per file), giving every session file its cell and file ids and
    every user a dense id; and turn absolute node counts and times into
    per-file increments. Data frames are sequences of records. */
module UsersTable {
  import opened Wrappers
  import opened Strings

  /** A row of the file table: cell name, file name, row id, node count,
      elapsed time, cell id and file id. */
  datatype NodeRow = NodeRow(cellname: string, filename: string, id: int, numNodes: int,
                             timeMs: int, cellId: int, fileId: int)

  /** A row of the user table: the cell, a serial or an inclusive serial
      range such as `118-121`, the date and the user's name. */
  datatype UserRow = UserRow(cellName: string, files: string, date: string, userName: string)

  // ------------------------------------------------------------------
  // Dates

  /** Unpacking `m, d, y = date.split('/')` fails unless there are exactly
      three parts. */
  datatype DateError = NotThreeParts

  /** `make_dt`: `m/d/yy` becomes `20yy-m-d`, parts copied as they are;
      with the flag off the date is kept. */
  function MakeDt(date: string, ez: bool): (r: Result<string, DateError>)
    ensures !ez ==> r == Ok(date)
    ensures ez ==> (r.Ok? <==> multiset(date)['/'] == 2)
  {
    if !ez then Ok(date)
    else
      SplitCount(date, '/');
      var parts := Split(date, '/');
      if |parts| != 3 then Err(NotThreeParts)
      else Ok("20" + parts[2] + "-" + parts[0] + "-" + parts[1])
  }

  /** On a date `m/d/y` the result is `20y-m-d`, with no padding and no
      calendar check. */
  lemma MakeDtOfDate(m: string, d: string, y: string)
    requires '/' !in m && '/' !in d && '/' !in y
    ensures MakeDt(m + "/" + d + "/" + y, true) == Ok("20" + y + "-" + m + "-" + d)
  {
    var ps := [m, d, y];
    assert ps[..1] == [m];
    JoinSnoc([m], d, '/');
    assert ps == [m, d] + [y];
    JoinSnoc([m, d], y, '/');
    assert Join(ps, '/') == m + "/" + d + "/" + y;
    SplitJoin(ps, '/');
  }

  // ------------------------------------------------------------------
  // Serial numbers

  /** Unpacking `r0, r1 = s.split('-')` with more than one dash, or `int()`
      on a bound that is not an integer. */
  datatype SerialError = TooManyDashes | NotAnInteger(text: string)

  /** `serials`: a text without a dash is the one serial; `A-B` gives A..B
      inclusive, ascending, each left-padded with zeros to three
      characters. */
  function SerialList(serial: string): (r: Result<seq<string>, SerialError>)
    ensures '-' !in serial ==> r == Ok([serial])
    ensures '-' in serial ==> var b := Split(serial, '-');
      (|b| != 2 ==> r == Err(TooManyDashes)) &&
      (r.Ok? <==> |b| == 2 && ParseInt(b[0]).Some? && ParseInt(b[1]).Some?) &&
      (r.Ok? ==>
        var lo, hi := ParseInt(b[0]).value, ParseInt(b[1]).value;
        |r.value| == (if hi >= lo then hi - lo + 1 else 0) &&
        forall k :: 0 <= k < |r.value| ==> PaddedTo(r.value[k], IntToString(lo + k), 3))
  {
    if '-' !in serial then Ok([serial])
    else
      var bounds := Split(serial, '-');
      if |bounds| != 2 then Err(TooManyDashes)
      else match ParseInt(bounds[0])
        case None => Err(NotAnInteger(bounds[0]))
        case Some(lo) => match ParseInt(bounds[1])
          case None => Err(NotAnInteger(bounds[1]))
          case Some(hi) => Ok(SerialRange(lo, hi))
  }

  /** The padded serials lo..hi: each is the text of its number with just
      enough zeros in front to make three characters. */
  function SerialRange(lo: int, hi: int): (rs: seq<string>)
    ensures |rs| == if hi >= lo then hi - lo + 1 else 0
    ensures forall k :: 0 <= k < |rs| ==> |rs[k]| >= 3 && PaddedTo(rs[k], IntToString(lo + k), 3)
  {
    var rs := seq(if hi >= lo then hi - lo + 1 else 0, k => ZeroPad(IntToString(lo + k), 3));
    assert forall k :: 0 <= k < |rs| ==> rs[k] == ZeroPad(IntToString(lo + k), 3);
    rs
  }

  /** `serials` with its in-place padding loop. */
  method Serials(serial: string) returns (r: Result<seq<string>, SerialError>)
    ensures r == SerialList(serial)
  {
    if '-' !in serial {
      return Ok([serial]);
    }
    var bounds := Split(serial, '-');
    if |bounds| != 2 {
      return Err(TooManyDashes);
    }
    var lo := ParseInt(bounds[0]);
    if lo.None? {
      return Err(NotAnInteger(bounds[0]));
    }
    var hi := ParseInt(bounds[1]);
    if hi.None? {
      return Err(NotAnInteger(bounds[1]));
    }
    var a := lo.value;
    var n := if hi.value >= a then hi.value - a + 1 else 0;
    var serial_ := PadSerials(a, n);
    return Ok(serial_);
  }

  /** The `n` serials from `a` on as text, each then left-padded with
      zeros, in place, one zero at a time, to three characters. */
  method PadSerials(a: int, n: nat) returns (serial_: seq<string>)
    ensures serial_ == SerialRange(a, a + n - 1)
  {
    serial_ := seq(n, k => IntToString(a + k));
    PaddedNone(a, n);
    for s := 0 to n
      invariant serial_ == PaddedUpTo(a, n, s)
    {
      ghost var before := serial_;
      ghost var x := IntToString(a + s);
      ghost var added := 0;
      assert before[s] == x;
      assert Zeros(0) + x == x;
      assert before[s := Zeros(0) + x] == before;
      while |serial_[s]| < 3
        invariant |before| == n
        invariant serial_ == before[s := Zeros(added) + x]
        invariant added > 0 ==> |Zeros(added) + x| <= 3
        decreases 3 - |serial_[s]|
      {
        OneMoreZero(added, x);
        serial_ := serial_[s := "0" + serial_[s]];
        added := added + 1;
      }
      PadDone(x, added);
      PaddedStep(a, n, s);
    }
    PaddedAll(a, n);
  }

  /** The serials a..a+n-1 as text, the first `s` of them padded. */
  ghost function PaddedUpTo(a: int, n: nat, s: nat): seq<string>
  {
    seq(n, k => if k < s then ZeroPad(IntToString(a + k), 3) else IntToString(a + k))
  }

  lemma PaddedNone(a: int, n: nat)
    ensures seq(n, k => IntToString(a + k)) == PaddedUpTo(a, n, 0)
  {
  }

  lemma PaddedStep(a: int, n: nat, s: nat)
    requires s < n
    ensures PaddedUpTo(a, n, s)[s := ZeroPad(IntToString(a + s), 3)] == PaddedUpTo(a, n, s + 1)
  {
  }

  lemma OneMoreZero(added: nat, x: string)
    ensures "0" + (Zeros(added) + x) == Zeros(added + 1) + x
  {
  }

  lemma PaddedAll(a: int, n: nat)
    ensures PaddedUpTo(a, n, n) == SerialRange(a, a + n - 1)
  {
    var rs := SerialRange(a, a + n - 1);
    assert |rs| == n;
    assert forall k :: 0 <= k < n ==> rs[k] == ZeroPad(IntToString(a + k), 3);
  }

  /** Prepending zeros one at a time until the length reaches three pads
      to width three. */
  lemma PadDone(x: string, added: nat)
    requires |Zeros(added) + x| >= 3
    requires added > 0 ==> |Zeros(added) + x| <= 3
    ensures Zeros(added) + x == ZeroPad(x, 3)
  {
    if added == 0 {
      assert Zeros(added) + x == x;
    }
  }

  /** A range `A-B` of serials, each bound possibly written with leading
      zeros, gives B-A+1 serials (none when B < A) whose values are A, A+1,
      ..., B in order, each written out and zero-padded to exactly three
      characters when shorter. */
  lemma SerialListOfRange(a: nat, za: nat, b: nat, zb: nat)
    ensures var text := Zeros(za) + NatToString(a) + "-" + Zeros(zb) + NatToString(b);
      SerialList(text).Ok? &&
      var rs := SerialList(text).value;
      |rs| == (if b >= a then b - a + 1 else 0) &&
      forall k :: 0 <= k < |rs| ==>
        |rs[k]| >= 3 && ParseInt(rs[k]) == Some(a + k) && PaddedTo(rs[k], NatToString(a + k), 3)
  {
    var text := Zeros(za) + NatToString(a) + "-" + Zeros(zb) + NatToString(b);
    RangeBounds(a, za, b, zb);
    assert SerialList(text) == Ok(SerialRange(a, b));
    SerialRangeValues(a, b);
  }

  /** `005-007` names the three serials `005`, `006` and `007`. */
  lemma ZeroLedRange()
    ensures SerialList("005-007") == Ok(["005", "006", "007"])
  {
    var t := Zeros(2) + NatToString(5) + "-" + Zeros(2) + NatToString(7);
    assert Zeros(2) == "00";
    assert NatToString(5) == "5" && NatToString(7) == "7";
    assert t == "005-007";
    SerialListOfRange(5, 2, 7, 2);
    var rs := SerialList(t).value;
    FiveToSeven(rs);
  }

  lemma FiveToSeven(rs: seq<string>)
    requires |rs| == 3
    requires forall k :: 0 <= k < 3 ==> PaddedTo(rs[k], NatToString(5 + k), 3)
    ensures rs == ["005", "006", "007"]
  {
    PaddedDigit(rs[0], 5);
    PaddedDigit(rs[1], 6);
    PaddedDigit(rs[2], 7);
    assert DigitChar(5) == '5' && DigitChar(6) == '6' && DigitChar(7) == '7';
  }

  /** A one-digit number padded to three characters is two zeros and it. */
  lemma PaddedDigit(r: string, n: nat)
    requires n < 10 && PaddedTo(r, NatToString(n), 3)
    ensures r == ['0', '0', DigitChar(n)]
  {
    assert NatToString(n) == [DigitChar(n)];
    assert r[2..] == [DigitChar(n)];
    assert r[0] == '0' && r[1] == '0' && r[2] == DigitChar(n);
  }

  /** The k-th padded serial of a range from a non-negative bound reads
      back as that bound plus k. */
  lemma SerialRangeValues(lo: nat, hi: int)
    ensures forall k :: 0 <= k < |SerialRange(lo, hi)| ==> ParseInt(SerialRange(lo, hi)[k]) == Some(lo + k)
  {
    var rs := SerialRange(lo, hi);
    forall k | 0 <= k < |rs|
      ensures ParseInt(rs[k]) == Some(lo + k)
    {
      assert rs[k] == ZeroPad(IntToString(lo + k), 3);
      assert IntToString(lo + k) == NatToString(lo + k);
      ZeroPadValue(lo + k, 3);
    }
  }

  /** The two bounds of a range, as its dash separates them. */
  lemma RangeBounds(a: nat, za: nat, b: nat, zb: nat)
    ensures var text := Zeros(za) + NatToString(a) + "-" + Zeros(zb) + NatToString(b);
      '-' in text &&
      Split(text, '-') == [Zeros(za) + NatToString(a), Zeros(zb) + NatToString(b)] &&
      ParseInt(Zeros(za) + NatToString(a)) == Some(a) &&
      ParseInt(Zeros(zb) + NatToString(b)) == Some(b)
  {
    var lo, hi := Zeros(za) + NatToString(a), Zeros(zb) + NatToString(b);
    var text := Zeros(za) + NatToString(a) + "-" + Zeros(zb) + NatToString(b);
    assert text == lo + ['-'] + hi;
    BoundText(a, za);
    BoundText(b, zb);
    SplitTwo(lo, hi, '-');
    assert text[|lo|] == '-';
  }

  /** A bound written with leading zeros reads as its value. */
  lemma BoundText(v: nat, z: nat)
    ensures '-' !in Zeros(z) + NatToString(v)
    ensures ParseInt(Zeros(z) + NatToString(v)) == Some(v)
  {
    var s := Zeros(z) + NatToString(v);
    LeadingZeros(z, NatToString(v));
    DigitsValueOfNatToString(v);
    assert !IsDigit('-');
    assert s[0] != '-';
  }

  // ------------------------------------------------------------------
  // File roots

  /** The file name before its first `.`. */
  function Stem(filename: string): string
  {
    Split(filename, '.')[0]
  }

  /** The file name after its last `.`. */
  function Extension(filename: string): string
  {
    var parts := Split(filename, '.');
    parts[|parts| - 1]
  }

  /** A name whose stem contains `target` is never a root. */
  predicate IsTarget(filename: string)
  {
    Contains(Stem(filename), "target")
  }

  /** `nodedf.cell_id.max()` of a non-empty table. */
  function MaxCellId(nodes: seq<NodeRow>): (m: int)
    requires nodes != []
    ensures forall i :: 0 <= i < |nodes| ==> nodes[i].cellId <= m
    ensures exists i :: 0 <= i < |nodes| && nodes[i].cellId == m
  {
    if |nodes| == 1 then nodes[0].cellId
    else
      var m := MaxCellId(nodes[1..]);
      assert forall i :: 1 <= i < |nodes| ==> nodes[i] == nodes[1..][i - 1];
      if nodes[0].cellId >= m then nodes[0].cellId else m
  }

  /** The number of cell ids `range(max + 1)` visits. */
  function CellCount(nodes: seq<NodeRow>): nat
    requires nodes != []
  {
    var m := MaxCellId(nodes);
    if m >= 0 then m + 1 else 0
  }

  /** `nodedf[nodedf.cell_id == c].index.values`: the positions of the
      rows of cell `c`, in table order. */
  function GroupIndices(nodes: seq<NodeRow>, c: int): (g: seq<nat>)
    ensures forall k :: 0 <= k < |g| ==> g[k] < |nodes| && nodes[g[k]].cellId == c
    ensures forall i :: 0 <= i < |nodes| && nodes[i].cellId == c ==> i in g
    ensures forall k, l :: 0 <= k < l < |g| ==> g[k] < g[l]
  {
    if nodes == [] then []
    else
      var n := |nodes| - 1;
      var prev := GroupIndices(nodes[..n], c);
      assert forall i :: 0 <= i < n ==> nodes[..n][i] == nodes[i];
      if nodes[n].cellId == c then prev + [n] else prev
  }

  /** The first row of cell `c`, from position `i` on, whose stem is not a
      target. */
  function RootRowFrom(nodes: seq<NodeRow>, c: int, i: nat): (r: Option<nat>)
    ensures r.Some? ==> i <= r.value < |nodes| && nodes[r.value].cellId == c && !IsTarget(nodes[r.value].filename)
    ensures r.Some? ==> forall j :: i <= j < r.value && nodes[j].cellId == c ==> IsTarget(nodes[j].filename)
    ensures r.None? ==> forall j :: i <= j < |nodes| && nodes[j].cellId == c ==> IsTarget(nodes[j].filename)
    decreases |nodes| - i
  {
    if i >= |nodes| then None
    else if nodes[i].cellId == c && !IsTarget(nodes[i].filename) then Some(i)
    else RootRowFrom(nodes, c, i + 1)
  }

  /** The row that gives cell `c` its root. */
  function RootRow(nodes: seq<NodeRow>, c: int): Option<nat>
  {
    RootRowFrom(nodes, c, 0)
  }

  /** Roots and extensions by cell name. */
  datatype Roots = Roots(roots: map<string, string>, exts: map<string, string>)

  /** `get_fileroot` fails on an empty table (its maximum cell id is not a
      number) and on a cell id none of whose rows can give a root (the
      group is exhausted). */
  datatype RootError = EmptyTable | NoRoot(cellId: int)

  /** Record a root row, unless its cell name already has a root. */
  function Record(rt: Roots, row: NodeRow): Roots
  {
    if row.cellname in rt.roots then rt
    else Roots(rt.roots[row.cellname := Stem(row.filename)], rt.exts[row.cellname := Extension(row.filename)])
  }

  /** The roots after cell ids 0..n-1. */
  function RootsUpTo(nodes: seq<NodeRow>, n: nat): Result<Roots, RootError>
  {
    if n == 0 then Ok(Roots(map[], map[]))
    else match RootsUpTo(nodes, n - 1)
      case Err(e) => Err(e)
      case Ok(rt) => match RootRow(nodes, n - 1)
        case None => Err(NoRoot(n - 1))
        case Some(i) => Ok(Record(rt, nodes[i]))
  }

  /** What `get_fileroot` returns. */
  function FileRoots(nodes: seq<NodeRow>): Result<Roots, RootError>
  {
    if nodes == [] then Err(EmptyTable) else RootsUpTo(nodes, CellCount(nodes))
  }

  /** `get_fileroot`: for each cell id up to the largest, the root and
      extension of its first row that is not a target, recorded under the
      row's cell name unless that name already has them. */
  method GetFileRoot(nodes: seq<NodeRow>) returns (r: Result<Roots, RootError>)
    ensures r == FileRoots(nodes)
  {
    if |nodes| == 0 {
      return Err(EmptyTable);
    }
    var maxId := MaxCellId(nodes);
    var roots: map<string, string> := map[];
    var exts: map<string, string> := map[];
    for c := 0 to if maxId >= 0 then maxId + 1 else 0
      invariant RootsUpTo(nodes, c) == Ok(Roots(roots, exts))
    {
      var found, root, ext := ScanGroup(nodes, c);
      RootsStep(nodes, c);
      if found.None? {
        RootErrorSticks(nodes, c + 1, CellCount(nodes));
        return Err(NoRoot(c));
      }
      var idx := found.value;
      if nodes[idx].cellname !in roots {
        roots := roots[nodes[idx].cellname := root];
        exts := exts[nodes[idx].cellname := ext];
      }
    }
    return Ok(Roots(roots, exts));
  }

  /** The scan `get_fileroot` makes of the rows of cell `c`, in table
      order, until one whose stem is not a target; running off the end of
      the group is the failure. */
  method ScanGroup(nodes: seq<NodeRow>, c: int) returns (found: Option<nat>, root: string, ext: string)
    ensures found == RootRow(nodes, c)
    ensures found.Some? ==> root == Stem(nodes[found.value].filename) && ext == Extension(nodes[found.value].filename)
  {
    var group := GroupIndices(nodes, c);
    var moveon, cnt := false, 0;
    var idx := 0;
    root, ext := "", "";
    while !moveon
      invariant 0 <= cnt <= |group|
      invariant forall k :: 0 <= k < cnt ==> IsTarget(nodes[group[k]].filename)
      invariant moveon ==> cnt < |group| && idx == group[cnt] && !IsTarget(nodes[idx].filename)
      invariant moveon ==> root == Stem(nodes[idx].filename) && ext == Extension(nodes[idx].filename)
      decreases |group| - cnt, if moveon then 0 else 1
    {
      if cnt >= |group| {
        NoRootRow(nodes, c, group);
        return None, root, ext;
      }
      idx := group[cnt];
      var rsplit := Split(nodes[idx].filename, '.');
      root, ext := rsplit[0], rsplit[|rsplit| - 1];
      assert root == Stem(nodes[idx].filename) && ext == Extension(nodes[idx].filename);
      if !Contains(root, "target") {
        moveon := true;
      } else {
        cnt := cnt + 1;
      }
    }
    RootRowOfGroup(nodes, c, group, cnt);
    return Some(idx), root, ext;
  }

  /** The roots after one more cell id. */
  lemma RootsStep(nodes: seq<NodeRow>, c: nat)
    ensures RootsUpTo(nodes, c + 1) ==
      if RootsUpTo(nodes, c).Err? then RootsUpTo(nodes, c)
      else if RootRow(nodes, c).None? then Err(NoRoot(c))
      else Ok(Record(RootsUpTo(nodes, c).value, nodes[RootRow(nodes, c).value]))
  {
  }

  /** The first row of a group that is not a target is the root row. */
  lemma RootRowOfGroup(nodes: seq<NodeRow>, c: int, group: seq<nat>, cnt: nat)
    requires group == GroupIndices(nodes, c) && cnt < |group|
    requires forall k :: 0 <= k < cnt ==> IsTarget(nodes[group[k]].filename)
    requires !IsTarget(nodes[group[cnt]].filename)
    ensures RootRow(nodes, c) == Some(group[cnt])
  {
    var r := RootRow(nodes, c);
    if r.Some? {
      var j := r.value;
      assert j in group;
      var m :| 0 <= m < |group| && group[m] == j;
    }
  }

  /** A group all of whose rows are targets has no root row. */
  lemma NoRootRow(nodes: seq<NodeRow>, c: int, group: seq<nat>)
    requires group == GroupIndices(nodes, c)
    requires forall k :: 0 <= k < |group| ==> IsTarget(nodes[group[k]].filename)
    ensures RootRow(nodes, c) == None
  {
  }

  /** Once a cell id has failed, the whole scan has failed. */
  lemma {:induction false} RootErrorSticks(nodes: seq<NodeRow>, k: nat, n: nat)
    requires k <= n && RootsUpTo(nodes, k).Err?
    ensures RootsUpTo(nodes, n) == RootsUpTo(nodes, k)
    decreases n - k
  {
    if k < n {
      RootErrorSticks(nodes, k, n - 1);
    }
  }

  /** An empty table fails; otherwise the scan fails exactly when some cell
      id up to the largest has no root row, and then at the first such id. */
  lemma FileRootsFailure(nodes: seq<NodeRow>)
    ensures FileRoots(nodes) == Err(EmptyTable) <==> nodes == []
    ensures nodes != [] ==>
      (FileRoots(nodes).Err? <==> exists c :: 0 <= c < CellCount(nodes) && RootRow(nodes, c).None?)
    ensures nodes != [] && FileRoots(nodes).Err? ==>
      FileRoots(nodes).error.NoRoot? &&
      var c := FileRoots(nodes).error.cellId;
      0 <= c < CellCount(nodes) && RootRow(nodes, c).None? &&
      forall c' :: 0 <= c' < c ==> RootRow(nodes, c').Some?
  {
    if nodes != [] {
      RootsUpToFailure(nodes, CellCount(nodes));
    }
  }

  lemma {:induction false} RootsUpToFailure(nodes: seq<NodeRow>, n: nat)
    ensures RootsUpTo(nodes, n).Err? <==> exists c :: 0 <= c < n && RootRow(nodes, c).None?
    ensures RootsUpTo(nodes, n).Err? ==>
      RootsUpTo(nodes, n).error.NoRoot? &&
      var c := RootsUpTo(nodes, n).error.cellId;
      0 <= c < n && RootRow(nodes, c).None? &&
      forall c' :: 0 <= c' < c ==> RootRow(nodes, c').Some?
  {
    if n > 0 {
      RootsUpToFailure(nodes, n - 1);
    }
  }

  /** The root row of cell `c` carries cell name `name`. */
  predicate NamedRoot(nodes: seq<NodeRow>, c: int, name: string)
  {
    RootRow(nodes, c).Some? && nodes[RootRow(nodes, c).value].cellname == name
  }

  /** The first cell id below `n` whose root row carries cell name `name`. */
  function FirstCellOf(nodes: seq<NodeRow>, n: nat, name: string): (r: Option<nat>)
    ensures r.Some? ==> r.value < n && NamedRoot(nodes, r.value, name)
  {
    if n == 0 then None
    else match FirstCellOf(nodes, n - 1, name)
      case Some(c) => Some(c)
      case None => if NamedRoot(nodes, n - 1, name) then Some(n - 1) else None
  }

  /** No cell id before the one `FirstCellOf` finds carries the name, and
      it finds one whenever some cell id below `n` does. */
  lemma {:induction false} FirstCellOfIsFirst(nodes: seq<NodeRow>, n: nat, name: string)
    ensures forall c :: 0 <= c < n && NamedRoot(nodes, c, name) ==>
      FirstCellOf(nodes, n, name).Some? && FirstCellOf(nodes, n, name).value <= c
  {
    if n > 0 {
      FirstCellOfIsFirst(nodes, n - 1, name);
    }
  }

  /** Every cell id below `n` has a root row whose cell name has a root. */
  ghost predicate CellsCovered(nodes: seq<NodeRow>, n: nat, rt: Roots)
  {
    forall c :: 0 <= c < n ==> RootRow(nodes, c).Some? && nodes[RootRow(nodes, c).value].cellname in rt.roots
  }

  /** The root and extension of `name` come from the root row of the first
      cell id below `n` with that name. */
  predicate FromFirstCell(nodes: seq<NodeRow>, n: nat, rt: Roots, name: string)
    requires name in rt.roots && name in rt.exts
  {
    match FirstCellOf(nodes, n, name)
    case None => false
    case Some(c) =>
      rt.roots[name] == Stem(nodes[RootRow(nodes, c).value].filename) &&
      rt.exts[name] == Extension(nodes[RootRow(nodes, c).value].filename)
  }

  /** On success every cell id up to the largest has a root row, every
      cell name of those rows has a root and an extension and nothing else
      does, and a name's root and extension are the stem and extension of
      the root row of the first cell id carrying that name. */
  lemma FileRootsContents(nodes: seq<NodeRow>)
    requires FileRoots(nodes).Ok?
    ensures var rt := FileRoots(nodes).value;
      rt.roots.Keys == rt.exts.Keys && CellsCovered(nodes, CellCount(nodes), rt) &&
      forall name :: name in rt.roots ==> FromFirstCell(nodes, CellCount(nodes), rt, name)
  {
    RootsUpToContents(nodes, CellCount(nodes));
  }

  lemma {:induction false} RootsUpToContents(nodes: seq<NodeRow>, n: nat)
    requires RootsUpTo(nodes, n).Ok?
    ensures var rt := RootsUpTo(nodes, n).value;
      rt.roots.Keys == rt.exts.Keys && CellsCovered(nodes, n, rt) &&
      forall name :: name in rt.roots ==> FromFirstCell(nodes, n, rt, name)
  {
    if n > 0 {
      RootsUpToContents(nodes, n - 1);
      var prev := RootsUpTo(nodes, n - 1).value;
      var i := RootRow(nodes, n - 1).value;
      var rt := RootsUpTo(nodes, n).value;
      assert rt == Record(prev, nodes[i]);
      CoveredStep(nodes, n, prev, rt);
      forall other | other in rt.roots
        ensures FromFirstCell(nodes, n, rt, other)
      {
        if other in prev.roots {
          FromFirstWiden(nodes, n, prev, rt, other);
        } else {
          FromFirstNew(nodes, n, prev, rt);
        }
      }
    }
  }

  /** Recording the root row of cell `n - 1` covers that cell and keeps
      the two maps on the same names. */
  lemma CoveredStep(nodes: seq<NodeRow>, n: nat, prev: Roots, rt: Roots)
    requires n > 0 && prev.roots.Keys == prev.exts.Keys && CellsCovered(nodes, n - 1, prev)
    requires RootRow(nodes, n - 1).Some? && rt == Record(prev, nodes[RootRow(nodes, n - 1).value])
    ensures rt.roots.Keys == rt.exts.Keys && CellsCovered(nodes, n, rt)
  {
  }

  /** A name that already had a root keeps it, and the cell it came from. */
  lemma FromFirstWiden(nodes: seq<NodeRow>, n: nat, prev: Roots, rt: Roots, name: string)
    requires n > 0 && name in prev.roots && prev.roots.Keys == prev.exts.Keys
    requires FromFirstCell(nodes, n - 1, prev, name)
    requires RootRow(nodes, n - 1).Some? && rt == Record(prev, nodes[RootRow(nodes, n - 1).value])
    ensures name in rt.roots && name in rt.exts && FromFirstCell(nodes, n, rt, name)
  {
    assert rt.roots[name] == prev.roots[name] && rt.exts[name] == prev.exts[name];
  }

  /** A cell name seen for the first time at cell `n - 1` takes that cell's
      root row. */
  lemma FromFirstNew(nodes: seq<NodeRow>, n: nat, prev: Roots, rt: Roots)
    requires n > 0 && CellsCovered(nodes, n - 1, prev)
    requires RootRow(nodes, n - 1).Some?
    requires nodes[RootRow(nodes, n - 1).value].cellname !in prev.roots
    requires rt == Record(prev, nodes[RootRow(nodes, n - 1).value])
    ensures var name := nodes[RootRow(nodes, n - 1).value].cellname;
      name in rt.roots && name in rt.exts && FromFirstCell(nodes, n, rt, name)
  {
    var name := nodes[RootRow(nodes, n - 1).value].cellname;
    assert FirstCellOf(nodes, n - 1, name).None?;
  }

  /** A name built as root, serial and extension joined by dots splits
      back into them when none of the three holds a dot. */
  lemma CandidateParts(root: string, serial: string, ext: string)
    requires '.' !in root && '.' !in serial && '.' !in ext
    ensures Stem(root + "." + serial + "." + ext) == root
    ensures Extension(root + "." + serial + "." + ext) == ext
  {
    var ps := [root, serial, ext];
    assert ps[..1] == [root];
    JoinSnoc([root], serial, '.');
    assert ps == [root, serial] + [ext];
    JoinSnoc([root, serial], ext, '.');
    assert Join(ps, '.') == root + "." + serial + "." + ext;
    SplitJoin(ps, '.');
  }

  /** The stem and extension a file gives its cell hold no dot, so a
      session file named from them with a dot-free serial has that same
      stem and extension. */
  lemma CandidateOfRoot(filename: string, serial: string)
    requires '.' !in serial
    ensures Stem(Stem(filename) + "." + serial + "." + Extension(filename)) == Stem(filename)
    ensures Extension(Stem(filename) + "." + serial + "." + Extension(filename)) == Extension(filename)
  {
    var parts := Split(filename, '.');
    SplitPiecesFree(filename, '.');
    assert parts[0] in parts && parts[|parts| - 1] in parts;
    CandidateParts(Stem(filename), serial, Extension(filename));
  }

  // ------------------------------------------------------------------
  // Reconciliation

  /** The columns of the reconciled table, in the order they are built. */
  datatype FileColumns = FileColumns(cellName: seq<string>, fileName: seq<string>, date: seq<string>,
                                     userName: seq<string>, userId: seq<nat>, cellId: seq<int>,
                                     fileId: seq<int>)

  const NoFiles := FileColumns([], [], [], [], [], [], [])

  /** The columns so far and the user ids handed out so far. */
  datatype Build = Build(files: FileColumns, userIds: map<string, nat>)

  /** Reconciliation fails where `get_fileroot` or `serials` raises. */
  datatype BuildError = RootFailure(rootError: RootError) | SerialFailure(row: nat, serialError: SerialError)

  /** The file-name column of the file table. */
  function FileNames(nodes: seq<NodeRow>): (names: seq<string>)
    ensures |names| == |nodes| && forall i :: 0 <= i < |nodes| ==> names[i] == nodes[i].filename
  {
    seq(|nodes|, i requires 0 <= i < |nodes| => nodes[i].filename)
  }

  /** `list.index`: the first position of `x`. */
  function IndexOf(xs: seq<string>, x: string): (i: nat)
    requires x in xs
    ensures i < |xs| && xs[i] == x && forall j :: 0 <= j < i ==> xs[j] != x
  {
    if xs[0] == x then 0 else 1 + IndexOf(xs[1..], x)
  }

  /** The names tried for a session: root, serial and extension joined by
      dots, one per serial; none when the cell has no root. */
  function Candidates(rt: Roots, u: UserRow, serials: seq<string>): (c: seq<string>)
    ensures u.cellName in rt.roots && u.cellName in rt.exts ==> |c| == |serials|
    ensures u.cellName !in rt.roots ==> c == []
    ensures forall k :: 0 <= k < |c| ==>
      u.cellName in rt.roots && u.cellName in rt.exts && k < |serials| &&
      c[k] == rt.roots[u.cellName] + "." + serials[k] + "." + rt.exts[u.cellName]
  {
    if u.cellName in rt.roots && u.cellName in rt.exts then
      seq(|serials|, k requires 0 <= k < |serials| => rt.roots[u.cellName] + "." + serials[k] + "." + rt.exts[u.cellName])
    else []
  }

  /** Log a session file found in the file table: its cell and file ids
      come from the first row with that name, and a new user name gets the
      next user id. */
  function Emit(nodes: seq<NodeRow>, u: UserRow, fil: string, b: Build): Build
    requires fil in FileNames(nodes)
  {
    var node := FileRow(nodes, fil);
    var ids := NextIds(b.userIds, u.userName);
    var f := b.files;
    Build(FileColumns(f.cellName + [u.cellName], f.fileName + [fil], f.date + [u.date],
                      f.userName + [u.userName], f.userId + [ids[u.userName]],
                      f.cellId + [node.cellId], f.fileId + [node.fileId]), ids)
  }

  /** Try the candidate names in order, logging those in the file table. */
  function EmitAll(nodes: seq<NodeRow>, u: UserRow, files: seq<string>, b: Build): Build
  {
    if files == [] then b
    else
      var prev := EmitAll(nodes, u, files[..|files| - 1], b);
      var fil := files[|files| - 1];
      if fil in FileNames(nodes) then Emit(nodes, u, fil, prev) else prev
  }

  /** The sessions' files in order, after the given roots. */
  function Reconcile(nodes: seq<NodeRow>, rt: Roots, users: seq<UserRow>): Result<Build, BuildError>
  {
    if users == [] then Ok(Build(NoFiles, map[]))
    else match Reconcile(nodes, rt, users[..|users| - 1])
      case Err(e) => Err(e)
      case Ok(b) =>
        var u := users[|users| - 1];
        match SerialList(u.files)
        case Err(e) => Err(SerialFailure(|users| - 1, e))
        case Ok(serials) => Ok(EmitAll(nodes, u, Candidates(rt, u, serials), b))
  }

  /** What `build_filenames` returns. */
  function BuildTable(nodes: seq<NodeRow>, users: seq<UserRow>): Result<FileColumns, BuildError>
  {
    match FileRoots(nodes)
    case Err(e) => Err(RootFailure(e))
    case Ok(rt) =>
      match Reconcile(nodes, rt, users)
      case Err(e) => Err(e)
      case Ok(b) => Ok(b.files)
  }

  /** `build_filenames`, loop by loop. */
  method BuildFilenames(nodes: seq<NodeRow>, users: seq<UserRow>) returns (r: Result<FileColumns, BuildError>)
    ensures r == BuildTable(nodes, users)
  {
    var userIds: map<string, nat> := map[];
    var rr := GetFileRoot(nodes);
    if rr.Err? {
      return Err(RootFailure(rr.error));
    }
    var roots, exts := rr.value.roots, rr.value.exts;
    ghost var rt := rr.value;
    var files := NoFiles;
    for f := 0 to |users|
      invariant Reconcile(nodes, rt, users[..f]) == Ok(Build(files, userIds))
    {
      var u := users[f];
      ReconcileStep(nodes, rt, users, f);
      var sr := Serials(u.files);
      if sr.Err? {
        ReconcileErrorSticks(nodes, rt, users, f + 1);
        assert users[..|users|] == users;
        return Err(SerialFailure(f, sr.error));
      }
      var serial_ := sr.value;
      var filesS: seq<string> := [];
      for s := 0 to |serial_|
        invariant filesS == Candidates(rt, u, serial_[..s])
      {
        CandidatesStep(rt, u, serial_, s);
        if u.cellName in roots && u.cellName in exts {
          filesS := filesS + [roots[u.cellName] + "." + serial_[s] + "." + exts[u.cellName]];
        }
      }
      assert serial_[..|serial_|] == serial_;
      files, userIds := LogCandidates(nodes, u, filesS, files, userIds);
    }
    assert users[..|users|] == users;
    return Ok(files);
  }

  /** The loop over one session's candidate names: each one the file table
      has is logged with the ids of its first row and the session's user. */
  method LogCandidates(nodes: seq<NodeRow>, u: UserRow, filesS: seq<string>,
                       files0: FileColumns, ids0: map<string, nat>)
    returns (files: FileColumns, userIds: map<string, nat>)
    ensures Build(files, userIds) == EmitAll(nodes, u, filesS, Build(files0, ids0))
  {
    files, userIds := files0, ids0;
    ghost var before := Build(files0, ids0);
    var names := FileNames(nodes);
    for j := 0 to |filesS|
      invariant Build(files, userIds) == EmitAll(nodes, u, filesS[..j], before)
    {
      var fil := filesS[j];
      EmitAllStep(nodes, u, filesS, j, before);
      ghost var prev := Build(files, userIds);
      if fil in names {
        var nodeIdx := IndexOf(names, fil);
        files := files.(cellName := files.cellName + [u.cellName]);
        files := files.(cellId := files.cellId + [nodes[nodeIdx].cellId]);
        files := files.(fileId := files.fileId + [nodes[nodeIdx].fileId]);
        files := files.(fileName := files.fileName + [fil]);
        files := files.(date := files.date + [u.date]);
        var usr := u.userName;
        if usr !in userIds {
          userIds := userIds[usr := |userIds|];
        }
        files := files.(userName := files.userName + [usr]);
        files := files.(userId := files.userId + [userIds[usr]]);
        assert Build(files, userIds) == Emit(nodes, u, fil, prev);
      }
    }
    assert filesS[..|filesS|] == filesS;
  }

  /** One more session: its serials, then its candidates tried in order. */
  lemma ReconcileStep(nodes: seq<NodeRow>, rt: Roots, users: seq<UserRow>, f: nat)
    requires f < |users|
    ensures var prev := Reconcile(nodes, rt, users[..f]);
      var serials := SerialList(users[f].files);
      Reconcile(nodes, rt, users[..f + 1]) ==
        if prev.Err? then prev
        else if serials.Err? then Err(SerialFailure(f, serials.error))
        else Ok(EmitAll(nodes, users[f], Candidates(rt, users[f], serials.value), prev.value))
  {
    assert users[..f + 1][..f] == users[..f];
  }

  /** One more serial gives one more candidate when the cell has a root. */
  lemma CandidatesStep(rt: Roots, u: UserRow, serials: seq<string>, s: nat)
    requires s < |serials|
    ensures Candidates(rt, u, serials[..s + 1]) ==
      if u.cellName in rt.roots && u.cellName in rt.exts
      then Candidates(rt, u, serials[..s]) + [rt.roots[u.cellName] + "." + serials[s] + "." + rt.exts[u.cellName]]
      else Candidates(rt, u, serials[..s])
  {
  }

  /** One more candidate is logged exactly when the file table has it. */
  lemma EmitAllStep(nodes: seq<NodeRow>, u: UserRow, files: seq<string>, j: nat, b: Build)
    requires j < |files|
    ensures EmitAll(nodes, u, files[..j + 1], b) ==
      if files[j] in FileNames(nodes) then Emit(nodes, u, files[j], EmitAll(nodes, u, files[..j], b))
      else EmitAll(nodes, u, files[..j], b)
  {
    assert files[..j + 1][..j] == files[..j];
  }

  /** Once a session's serials fail, the whole reconciliation fails with
      that error. */
  lemma {:induction false} ReconcileErrorSticks(nodes: seq<NodeRow>, rt: Roots, users: seq<UserRow>, m: nat)
    requires m <= |users| && Reconcile(nodes, rt, users[..m]).Err?
    ensures Reconcile(nodes, rt, users) == Reconcile(nodes, rt, users[..m])
    decreases |users| - m
  {
    assert users[..|users|] == users;
    if m < |users| {
      assert users[..m + 1][..m] == users[..m];
      ReconcileErrorSticks(nodes, rt, users, m + 1);
    }
  }

  // ------------------------------------------------------------------
  // What the reconciled table holds

  /** All seven columns have one entry per logged file. */
  ghost predicate Rectangular(f: FileColumns)
  {
    var n := |f.cellName|;
    |f.fileName| == n && |f.date| == n && |f.userName| == n && |f.userId| == n &&
    |f.cellId| == n && |f.fileId| == n
  }

  /** Every logged file is in the file table and carries the cell id and
      file id of the first row there with its name. */
  ghost predicate Joined(nodes: seq<NodeRow>, f: FileColumns)
    requires Rectangular(f)
  {
    forall k :: 0 <= k < |f.fileName| ==>
      f.fileName[k] in FileNames(nodes) &&
      f.cellId[k] == nodes[IndexOf(FileNames(nodes), f.fileName[k])].cellId &&
      f.fileId[k] == nodes[IndexOf(FileNames(nodes), f.fileName[k])].fileId
  }

  /** `name` is a candidate of session `u`, logged with its cell, date and
      user. */
  ghost predicate SessionFile(rt: Roots, u: UserRow, cell: string, name: string, date: string, user: string)
  {
    u.cellName == cell && u.date == date && u.userName == user &&
    SerialList(u.files).Ok? && name in Candidates(rt, u, SerialList(u.files).value)
  }

  /** Every logged file comes from one of the sessions. */
  ghost predicate FromSessions(rt: Roots, users: seq<UserRow>, f: FileColumns)
    requires Rectangular(f)
  {
    forall k :: 0 <= k < |f.fileName| ==> RowFromSession(rt, users, f, k)
  }

  /** Row `k` is a candidate of one of the sessions. */
  ghost predicate RowFromSession(rt: Roots, users: seq<UserRow>, f: FileColumns, k: nat)
    requires Rectangular(f) && k < |f.fileName|
  {
    exists i :: 0 <= i < |users| && SessionFile(rt, users[i], f.cellName[k], f.fileName[k], f.date[k], f.userName[k])
  }

  /** The distinct names in order of first appearance. */
  function FirstSeen(names: seq<string>): (fs: seq<string>)
    ensures forall x :: x in fs <==> x in names
  {
    if names == [] then []
    else
      var prev := FirstSeen(names[..|names| - 1]);
      var x := names[|names| - 1];
      assert names == names[..|names| - 1] + [x];
      if x in prev then prev else prev + [x]
  }

  /** A user's id is the position of the name in order of first
      appearance. */
  ghost predicate IdsFirstSeen(b: Build)
    requires Rectangular(b.files)
  {
    NumberedFirstSeen(b.userIds, b.files.userName) && IdColumn(b.userIds, b.files.userName, b.files.userId)
  }

  /** The ids number the distinct names in order of first appearance. */
  ghost predicate NumberedFirstSeen(ids: map<string, nat>, names: seq<string>)
  {
    Numbered(ids, FirstSeen(names))
  }

  /** The ids are the positions of the names in `fs`. */
  ghost predicate Numbered(ids: map<string, nat>, fs: seq<string>)
  {
    |ids| == |fs| &&
    (forall x :: x in ids <==> x in fs) &&
    (forall x :: x in ids ==> ids[x] < |fs| && fs[ids[x]] == x)
  }

  /** Each row's id is the id of its name. */
  ghost predicate IdColumn(ids: map<string, nat>, names: seq<string>, idCol: seq<nat>)
    requires |idCol| == |names|
  {
    forall k :: 0 <= k < |idCol| ==> names[k] in ids && idCol[k] == ids[names[k]]
  }

  /** A name logged again keeps its id; a new one gets the next id. */
  function NextIds(ids: map<string, nat>, user: string): map<string, nat>
  {
    if user in ids then ids else ids[user := |ids|]
  }

  lemma NumberedNext(ids: map<string, nat>, names: seq<string>, user: string)
    requires NumberedFirstSeen(ids, names)
    ensures NumberedFirstSeen(NextIds(ids, user), names + [user])
  {
    FirstSeenSnoc(names, user);
    if user !in ids {
      NumberedNew(ids, names, user);
    } else {
      assert user in FirstSeen(names);
    }
  }

  /** A new name gets the next id, its position in the order of first
      appearance. */
  lemma NumberedNew(ids: map<string, nat>, names: seq<string>, user: string)
    requires NumberedFirstSeen(ids, names) && user !in ids
    ensures NumberedFirstSeen(ids[user := |ids|], names + [user])
  {
    FirstSeenSnoc(names, user);
    NumberedAppend(ids, FirstSeen(names), user);
  }

  lemma NumberedAppend(ids: map<string, nat>, fs: seq<string>, user: string)
    requires Numbered(ids, fs) && user !in ids
    ensures Numbered(ids[user := |ids|], fs + [user])
  {
    var ids', fs' := ids[user := |ids|], fs + [user];
    assert user !in fs;
    assert |ids'| == |ids| + 1;
    forall x | x in ids'
      ensures ids'[x] < |fs'| && fs'[ids'[x]] == x
    {
      if x != user {
        assert x in ids;
      }
    }
    assert forall x :: x in ids' <==> x in fs';
  }

  /** The order of first appearance names each user once. */
  lemma {:induction false} FirstSeenDistinct(names: seq<string>)
    ensures var fs := FirstSeen(names);
      forall i, j :: 0 <= i < j < |fs| ==> fs[i] != fs[j]
  {
    if names != [] {
      var init := names[..|names| - 1];
      FirstSeenDistinct(init);
      assert names == init + [names[|names| - 1]];
      FirstSeenSnoc(init, names[|names| - 1]);
    }
  }

  /** A name seen before adds nothing to the order of first appearance; a
      new one comes last. */
  lemma FirstSeenSnoc(names: seq<string>, x: string)
    ensures FirstSeen(names + [x]) == if x in names then FirstSeen(names) else FirstSeen(names) + [x]
  {
    assert (names + [x])[..|names|] == names;
  }

  lemma IdColumnNext(ids: map<string, nat>, names: seq<string>, idCol: seq<nat>, user: string)
    requires |idCol| == |names| && IdColumn(ids, names, idCol)
    ensures IdColumn(NextIds(ids, user), names + [user], idCol + [NextIds(ids, user)[user]])
  {
  }

  ghost predicate Sound(nodes: seq<NodeRow>, rt: Roots, users: seq<UserRow>, b: Build)
  {
    Rectangular(b.files) && Joined(nodes, b.files) && FromSessions(rt, users, b.files) && IdsFirstSeen(b)
  }

  lemma EmitSound(nodes: seq<NodeRow>, rt: Roots, users: seq<UserRow>, i: nat, fil: string, b: Build)
    requires i < |users| && fil in FileNames(nodes)
    requires SessionFile(rt, users[i], users[i].cellName, fil, users[i].date, users[i].userName)
    requires Sound(nodes, rt, users, b)
    ensures Sound(nodes, rt, users, Emit(nodes, users[i], fil, b))
  {
    EmitJoined(nodes, users[i], fil, b);
    EmitFromSessions(nodes, rt, users, i, fil, b);
    EmitIds(nodes, users[i], fil, b);
  }

  lemma EmitJoined(nodes: seq<NodeRow>, u: UserRow, fil: string, b: Build)
    requires fil in FileNames(nodes) && Rectangular(b.files) && Joined(nodes, b.files)
    ensures Rectangular(Emit(nodes, u, fil, b).files) && Joined(nodes, Emit(nodes, u, fil, b).files)
  {
  }

  lemma EmitFromSessions(nodes: seq<NodeRow>, rt: Roots, users: seq<UserRow>, i: nat, fil: string, b: Build)
    requires i < |users| && fil in FileNames(nodes)
    requires SessionFile(rt, users[i], users[i].cellName, fil, users[i].date, users[i].userName)
    requires Rectangular(b.files) && FromSessions(rt, users, b.files)
    ensures Rectangular(Emit(nodes, users[i], fil, b).files)
    ensures FromSessions(rt, users, Emit(nodes, users[i], fil, b).files)
  {
    var e := Emit(nodes, users[i], fil, b).files;
    var n := |b.files.cellName|;
    forall k | 0 <= k < |e.fileName|
      ensures RowFromSession(rt, users, e, k)
    {
      if k == n {
        assert SessionFile(rt, users[i], e.cellName[k], e.fileName[k], e.date[k], e.userName[k]);
      } else {
        assert RowFromSession(rt, users, b.files, k);
        var j :| 0 <= j < |users| &&
          SessionFile(rt, users[j], b.files.cellName[k], b.files.fileName[k], b.files.date[k], b.files.userName[k]);
        assert SessionFile(rt, users[j], e.cellName[k], e.fileName[k], e.date[k], e.userName[k]);
      }
    }
  }

  lemma EmitIds(nodes: seq<NodeRow>, u: UserRow, fil: string, b: Build)
    requires fil in FileNames(nodes) && Rectangular(b.files) && IdsFirstSeen(b)
    ensures Rectangular(Emit(nodes, u, fil, b).files) && IdsFirstSeen(Emit(nodes, u, fil, b))
  {
    EmitShape(nodes, u, fil, b);
    IdsNext(b, Emit(nodes, u, fil, b), u.userName);
  }

  /** What logging a file does to the user columns and the ids. */
  lemma EmitShape(nodes: seq<NodeRow>, u: UserRow, fil: string, b: Build)
    requires fil in FileNames(nodes) && Rectangular(b.files)
    ensures var e := Emit(nodes, u, fil, b);
      Rectangular(e.files) && e.userIds == NextIds(b.userIds, u.userName) &&
      e.files.userName == b.files.userName + [u.userName] &&
      e.files.userId == b.files.userId + [NextIds(b.userIds, u.userName)[u.userName]]
  {
  }

  lemma IdsNext(b: Build, e: Build, user: string)
    requires Rectangular(b.files) && IdsFirstSeen(b) && Rectangular(e.files)
    requires e.userIds == NextIds(b.userIds, user)
    requires e.files.userName == b.files.userName + [user]
    requires e.files.userId == b.files.userId + [NextIds(b.userIds, user)[user]]
    ensures IdsFirstSeen(e)
  {
    NumberedNext(b.userIds, b.files.userName, user);
    IdColumnNext(b.userIds, b.files.userName, b.files.userId, user);
  }

  lemma {:induction false} EmitAllSound(nodes: seq<NodeRow>, rt: Roots, users: seq<UserRow>, i: nat, files: seq<string>, b: Build)
    requires i < |users| && SerialList(users[i].files).Ok?
    requires forall x :: x in files ==> x in Candidates(rt, users[i], SerialList(users[i].files).value)
    requires Sound(nodes, rt, users, b)
    ensures Sound(nodes, rt, users, EmitAll(nodes, users[i], files, b))
  {
    if files != [] {
      var init := files[..|files| - 1];
      assert forall x :: x in init ==> x in files;
      EmitAllSound(nodes, rt, users, i, init, b);
      var fil := files[|files| - 1];
      if fil in FileNames(nodes) {
        EmitSound(nodes, rt, users, i, fil, EmitAll(nodes, users[i], init, b));
      }
    }
  }

  lemma FromSessionsGrow(rt: Roots, users: seq<UserRow>, m: nat, f: FileColumns)
    requires m <= |users| && Rectangular(f) && FromSessions(rt, users[..m], f)
    ensures FromSessions(rt, users, f)
  {
    forall k | 0 <= k < |f.fileName|
      ensures RowFromSession(rt, users, f, k)
    {
      assert RowFromSession(rt, users[..m], f, k);
      var i :| 0 <= i < m && SessionFile(rt, users[..m][i], f.cellName[k], f.fileName[k], f.date[k], f.userName[k]);
      assert users[..m][i] == users[i];
      assert SessionFile(rt, users[i], f.cellName[k], f.fileName[k], f.date[k], f.userName[k]);
    }
  }

  lemma {:induction false} ReconcileSound(nodes: seq<NodeRow>, rt: Roots, users: seq<UserRow>)
    requires Reconcile(nodes, rt, users).Ok?
    ensures Sound(nodes, rt, users, Reconcile(nodes, rt, users).value)
  {
    if users == [] {
      assert FirstSeen([]) == [];
    } else {
      var f := |users| - 1;
      var init := users[..f];
      ReconcileStep(nodes, rt, users, f);
      assert users[..f + 1] == users;
      ReconcileSound(nodes, rt, init);
      var b := Reconcile(nodes, rt, init).value;
      FromSessionsGrow(rt, users, f, b.files);
      var serials := SerialList(users[f].files).value;
      EmitAllSound(nodes, rt, users, f, Candidates(rt, users[f], serials), b);
    }
  }

  /** Every row of the reconciled table names a file of the file table,
      carries the cell id and file id of the first row there with that
      name, and comes from a session with the same cell, date and user for
      which it is root, serial and extension joined by dots. */
  lemma BuildTableRows(nodes: seq<NodeRow>, users: seq<UserRow>)
    requires BuildTable(nodes, users).Ok?
    ensures var f := BuildTable(nodes, users).value;
      Rectangular(f) && Joined(nodes, f) && FromSessions(FileRoots(nodes).value, users, f)
  {
    ReconcileSound(nodes, FileRoots(nodes).value, users);
  }

  /** User ids are dense and follow first appearance: the id of a row is
      the position of its user name among the distinct names in the order
      they first appear, so two rows share an id exactly when they share a
      user name. */
  lemma BuildTableUserIds(nodes: seq<NodeRow>, users: seq<UserRow>)
    requires BuildTable(nodes, users).Ok?
    ensures var f := BuildTable(nodes, users).value;
      var fs := FirstSeen(f.userName);
      |f.userId| == |f.userName| &&
      (forall k :: 0 <= k < |f.userId| ==> f.userId[k] < |fs| && fs[f.userId[k]] == f.userName[k]) &&
      forall k, l :: 0 <= k < |f.userId| && 0 <= l < |f.userId| ==>
        (f.userId[k] == f.userId[l] <==> f.userName[k] == f.userName[l])
  {
    ReconcileSound(nodes, FileRoots(nodes).value, users);
  }

  // ------------------------------------------------------------------
  // Order of the reconciled table

  /** The names of `files` that the file table has, in order. */
  function Present(nodes: seq<NodeRow>, files: seq<string>): (p: seq<string>)
    ensures forall x :: x in p <==> x in files && x in FileNames(nodes)
  {
    if files == [] then []
    else
      var x := files[|files| - 1];
      assert files == files[..|files| - 1] + [x];
      Present(nodes, files[..|files| - 1]) + if x in FileNames(nodes) then [x] else []
  }

  /** The row of the file table that `list.index` finds for a name. */
  function FileRow(nodes: seq<NodeRow>, fil: string): (row: NodeRow)
    requires fil in FileNames(nodes)
    ensures row in nodes && row.filename == fil
  {
    nodes[IndexOf(FileNames(nodes), fil)]
  }

  /** `n` copies of `x`. */
  function Copies<T>(n: nat, x: T): (r: seq<T>)
    ensures |r| == n && forall k :: 0 <= k < n ==> r[k] == x
  {
    seq(n, _ => x)
  }

  /** The cell ids of the rows the names are found at. */
  function CellIds(nodes: seq<NodeRow>, p: seq<string>): (r: seq<int>)
    requires forall x :: x in p ==> x in FileNames(nodes)
    ensures |r| == |p| && forall k :: 0 <= k < |p| ==> r[k] == FileRow(nodes, p[k]).cellId
  {
    if p == [] then []
    else CellIds(nodes, p[..|p| - 1]) + [FileRow(nodes, p[|p| - 1]).cellId]
  }

  /** The file ids of the rows the names are found at. */
  function FileIds(nodes: seq<NodeRow>, p: seq<string>): (r: seq<int>)
    requires forall x :: x in p ==> x in FileNames(nodes)
    ensures |r| == |p| && forall k :: 0 <= k < |p| ==> r[k] == FileRow(nodes, p[k]).fileId
  {
    if p == [] then []
    else FileIds(nodes, p[..|p| - 1]) + [FileRow(nodes, p[|p| - 1]).fileId]
  }

  /** Session `u` logging the names `p`, all in the file table, takes the
      table from `before` to `after`: every column grows by one entry per
      name, the session's cell, date and user on each, the ids of the row
      the name is found at, and the user's id, handed out on the first
      logged row if the user is new. */
  ghost predicate SessionBlock(nodes: seq<NodeRow>, u: UserRow, p: seq<string>, before: Build, after: Build)
    requires forall x :: x in p ==> x in FileNames(nodes)
  {
    var f, g, ids := before.files, after.files, NextIds(before.userIds, u.userName);
    g.cellName == f.cellName + Copies(|p|, u.cellName) &&
    g.fileName == f.fileName + p &&
    g.date == f.date + Copies(|p|, u.date) &&
    g.userName == f.userName + Copies(|p|, u.userName) &&
    g.userId == f.userId + Copies(|p|, ids[u.userName]) &&
    g.cellId == f.cellId + CellIds(nodes, p) &&
    g.fileId == f.fileId + FileIds(nodes, p) &&
    after.userIds == if p == [] then before.userIds else ids
  }

  /** Trying a session's candidates logs, in candidate order, exactly those
      the file table has, each with the session's cell, date and user and
      the ids of its row. */
  lemma {:induction false} EmitAllBlock(nodes: seq<NodeRow>, u: UserRow, files: seq<string>, b: Build)
    ensures SessionBlock(nodes, u, Present(nodes, files), b, EmitAll(nodes, u, files, b))
  {
    if files != [] {
      var init, x := files[..|files| - 1], files[|files| - 1];
      var p0, prev := Present(nodes, init), EmitAll(nodes, u, init, b);
      EmitAllBlock(nodes, u, init, b);
      if x in FileNames(nodes) {
        assert Present(nodes, files) == p0 + [x];
        assert EmitAll(nodes, u, files, b) == Emit(nodes, u, x, prev);
        BlockStep(nodes, u, p0, x, b, prev);
      } else {
        assert Present(nodes, files) == p0;
        assert EmitAll(nodes, u, files, b) == prev;
      }
    }
  }

  /** Logging one more name extends the block by one row. */
  lemma BlockStep(nodes: seq<NodeRow>, u: UserRow, p0: seq<string>, x: string, b: Build, prev: Build)
    requires x in FileNames(nodes) && forall y :: y in p0 ==> y in FileNames(nodes)
    requires SessionBlock(nodes, u, p0, b, prev)
    ensures SessionBlock(nodes, u, p0 + [x], b, Emit(nodes, u, x, prev))
  {
    var p, q := p0 + [x], |p0|;
    var f, e := b.files, Emit(nodes, u, x, prev);
    var ids := NextIds(b.userIds, u.userName);
    assert NextIds(prev.userIds, u.userName) == ids;
    EmitColumns(nodes, u, x, prev);
    IdsSnoc(nodes, p0, x);
    CopiesSnoc(q, u.cellName);
    CopiesSnoc(q, u.date);
    CopiesSnoc(q, u.userName);
    CopiesSnoc(q, ids[u.userName]);
  }

  /** Logging one name appends one entry to every column. */
  lemma EmitColumns(nodes: seq<NodeRow>, u: UserRow, x: string, prev: Build)
    requires x in FileNames(nodes)
    ensures var e, f, ids := Emit(nodes, u, x, prev), prev.files, NextIds(prev.userIds, u.userName);
      e.files.cellName == f.cellName + [u.cellName] && e.files.fileName == f.fileName + [x] &&
      e.files.date == f.date + [u.date] && e.files.userName == f.userName + [u.userName] &&
      e.files.userId == f.userId + [ids[u.userName]] &&
      e.files.cellId == f.cellId + [FileRow(nodes, x).cellId] &&
      e.files.fileId == f.fileId + [FileRow(nodes, x).fileId] && e.userIds == ids
  {
  }

  lemma IdsSnoc(nodes: seq<NodeRow>, p0: seq<string>, x: string)
    requires x in FileNames(nodes) && forall y :: y in p0 ==> y in FileNames(nodes)
    ensures CellIds(nodes, p0 + [x]) == CellIds(nodes, p0) + [FileRow(nodes, x).cellId]
    ensures FileIds(nodes, p0 + [x]) == FileIds(nodes, p0) + [FileRow(nodes, x).fileId]
  {
    assert (p0 + [x])[..|p0|] == p0;
  }

  lemma CopiesSnoc<T>(n: nat, x: T)
    ensures Copies(n + 1, x) == Copies(n, x) + [x]
  {
  }

  /** Each column of `a` is a prefix of the same column of `b`. */
  ghost predicate ColumnsPrefix(a: FileColumns, b: FileColumns)
  {
    a.cellName <= b.cellName && a.fileName <= b.fileName && a.date <= b.date &&
    a.userName <= b.userName && a.userId <= b.userId && a.cellId <= b.cellId && a.fileId <= b.fileId
  }

  lemma {:induction false} EmitAllExtends(nodes: seq<NodeRow>, u: UserRow, files: seq<string>, b: Build)
    ensures ColumnsPrefix(b.files, EmitAll(nodes, u, files, b).files)
  {
    if files != [] {
      EmitAllExtends(nodes, u, files[..|files| - 1], b);
    }
  }

  /** Later sessions only append rows: the table of the first `m` sessions
      is a prefix, column by column, of the table of all of them. */
  lemma {:induction false} ReconcilePrefix(nodes: seq<NodeRow>, rt: Roots, users: seq<UserRow>, m: nat)
    requires m <= |users| && Reconcile(nodes, rt, users).Ok?
    ensures Reconcile(nodes, rt, users[..m]).Ok?
    ensures ColumnsPrefix(Reconcile(nodes, rt, users[..m]).value.files, Reconcile(nodes, rt, users).value.files)
    decreases |users| - m
  {
    if m == |users| {
      assert users[..m] == users;
    } else {
      ReconcilePrefix(nodes, rt, users, m + 1);
      ReconcileStep(nodes, rt, users, m);
      var b := Reconcile(nodes, rt, users[..m]).value;
      EmitAllExtends(nodes, users[m], Candidates(rt, users[m], SerialList(users[m].files).value), b);
    }
  }

  /** Session `i` contributes, right after the rows of the sessions before
      it, the candidate names the file table has, in serial order, each
      logged with that session's cell, date and user and its row's ids. */
  lemma SessionFiles(nodes: seq<NodeRow>, rt: Roots, users: seq<UserRow>, i: nat)
    requires i < |users| && Reconcile(nodes, rt, users).Ok?
    ensures SerialList(users[i].files).Ok?
    ensures Reconcile(nodes, rt, users[..i + 1]).Ok? && Reconcile(nodes, rt, users[..i]).Ok?
    ensures SessionBlock(nodes, users[i], Present(nodes, Candidates(rt, users[i], SerialList(users[i].files).value)),
                         Reconcile(nodes, rt, users[..i]).value, Reconcile(nodes, rt, users[..i + 1]).value)
  {
    ReconcilePrefix(nodes, rt, users, i + 1);
    ReconcileStep(nodes, rt, users, i);
    var b := Reconcile(nodes, rt, users[..i]).value;
    EmitAllBlock(nodes, users[i], Candidates(rt, users[i], SerialList(users[i].files).value), b);
  }

  /** A session whose cell has no root adds no row. */
  lemma RootlessSession(nodes: seq<NodeRow>, rt: Roots, users: seq<UserRow>, i: nat)
    requires i < |users| && Reconcile(nodes, rt, users).Ok? && users[i].cellName !in rt.roots
    ensures Reconcile(nodes, rt, users[..i + 1]).Ok? && Reconcile(nodes, rt, users[..i]).Ok?
    ensures Reconcile(nodes, rt, users[..i + 1]).value.files == Reconcile(nodes, rt, users[..i]).value.files
  {
    ReconcilePrefix(nodes, rt, users, i + 1);
    ReconcilePrefix(nodes, rt, users, i);
    ReconcileStep(nodes, rt, users, i);
  }

  // ------------------------------------------------------------------
  // Node increments

  /** Row `i` starts a run of rows of one cell name. */
  predicate StartsRun(rows: seq<NodeRow>, i: nat)
    requires i < |rows|
  {
    i == 0 || rows[i].cellname != rows[i - 1].cellname
  }

  /** The first row of a run keeps its node count and adds no time; every
      later row adds the difference from the row before it. */
  ghost predicate AreIncrements(rows: seq<NodeRow>, nodesDiff: seq<int>, timeDiff: seq<int>)
  {
    |nodesDiff| == |rows| && |timeDiff| == |rows| &&
    forall i :: 0 <= i < |rows| ==>
      if StartsRun(rows, i) then nodesDiff[i] == rows[i].numNodes && timeDiff[i] == 0
      else nodesDiff[i] == rows[i].numNodes - rows[i - 1].numNodes &&
           timeDiff[i] == rows[i].timeMs - rows[i - 1].timeMs
  }

  /** `nodes_added`. */
  method NodesAdded(rows: seq<NodeRow>) returns (nodesDiff: seq<int>, timeDiff: seq<int>)
    ensures AreIncrements(rows, nodesDiff, timeDiff)
  {
    var currCell: Option<string> := None;
    var currNode, currTime := 0, 0;
    nodesDiff, timeDiff := [], [];
    for i := 0 to |rows|
      invariant |nodesDiff| == i && |timeDiff| == i
      invariant i == 0 ==> currCell == None
      invariant i > 0 ==>
        currCell == Some(rows[i - 1].cellname) && currNode == rows[i - 1].numNodes && currTime == rows[i - 1].timeMs
      invariant forall k :: 0 <= k < i ==>
        if StartsRun(rows, k) then nodesDiff[k] == rows[k].numNodes && timeDiff[k] == 0
        else nodesDiff[k] == rows[k].numNodes - rows[k - 1].numNodes &&
             timeDiff[k] == rows[k].timeMs - rows[k - 1].timeMs
    {
      if currCell == Some(rows[i].cellname) {
        nodesDiff := nodesDiff + [rows[i].numNodes - currNode];
        currNode := rows[i].numNodes;
        timeDiff := timeDiff + [rows[i].timeMs - currTime];
        currTime := rows[i].timeMs;
      } else {
        currCell := Some(rows[i].cellname);
        nodesDiff := nodesDiff + [rows[i].numNodes];
        currNode := rows[i].numNodes;
        timeDiff := timeDiff + [0];
        currTime := rows[i].timeMs;
      }
    }
  }

  function Sum(xs: seq<int>): int
  {
    if xs == [] then 0 else Sum(xs[..|xs| - 1]) + xs[|xs| - 1]
  }

  /** Within a run the increments add up: from the run's first row to row
      `k` the node increments sum to the node count of row `k`, and the
      time increments to the time elapsed since the run's first row. */
  lemma {:induction false} RunTotals(rows: seq<NodeRow>, nodesDiff: seq<int>, timeDiff: seq<int>, s: nat, k: nat)
    requires AreIncrements(rows, nodesDiff, timeDiff)
    requires s <= k < |rows| && StartsRun(rows, s)
    requires forall j :: s < j <= k ==> !StartsRun(rows, j)
    ensures Sum(nodesDiff[s..k + 1]) == rows[k].numNodes
    ensures Sum(timeDiff[s..k + 1]) == rows[k].timeMs - rows[s].timeMs
  {
    SumSlice(nodesDiff, s, k);
    SumSlice(timeDiff, s, k);
    if k > s {
      RunTotals(rows, nodesDiff, timeDiff, s, k - 1);
      assert !StartsRun(rows, k);
    }
  }

  /** Extending a slice by one element adds that element to its sum. */
  lemma SumSlice(xs: seq<int>, s: nat, k: nat)
    requires s <= k < |xs|
    ensures Sum(xs[s..k + 1]) == Sum(xs[s..k]) + xs[k]
  {
    assert xs[s..k + 1][..k - s] == xs[s..k];
  }
}
