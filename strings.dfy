/** The string operations of Python's and C++'s standard libraries that the
    annotation scripts rely on: `str.split` and `str.join`, `str.strip`, the
    substring test (`p in s`, `std::string::find`), and the conversions
    between integers and their decimal text (`int()`, `std::stoi`, `str()`,
    `%i`). Strings are sequences of characters. */
module Strings {
  import opened Wrappers

  // ------------------------------------------------------------------
  // Substring search

  /** `p` occurs in `s` starting at index `i`. */
  ghost predicate OccursAt(s: string, p: string, i: int)
  {
    0 <= i && i + |p| <= |s| && s[i..i + |p|] == p
  }

  /** Python's `p in s` on two strings, and C++'s `s.find(p) != npos`. */
  function Contains(s: string, p: string): (b: bool)
    ensures b <==> exists i :: OccursAt(s, p, i)
    decreases |s|
  {
    if |p| > |s| then false
    else if s[..|p|] == p then assert OccursAt(s, p, 0); true
    else ShiftOccurrence(s, p); Contains(s[1..], p)
  }

  lemma ShiftOccurrence(s: string, p: string)
    requires |p| <= |s| && s[..|p|] != p
    ensures (exists i :: OccursAt(s, p, i)) <==> (exists i :: OccursAt(s[1..], p, i))
  {
    if i :| OccursAt(s, p, i) {
      assert i != 0;
      assert s[1..][i - 1..i - 1 + |p|] == s[i..i + |p|];
      assert OccursAt(s[1..], p, i - 1);
    }
    if i :| OccursAt(s[1..], p, i) {
      assert s[1..][i..i + |p|] == s[i + 1..i + 1 + |p|];
      assert OccursAt(s, p, i + 1);
    }
  }

  // ------------------------------------------------------------------
  // Splitting and joining on a one-character separator

  /** Python's `s.split(d)`: the text between consecutive separators, so
      always one more piece than there are separators (the empty string
      gives one empty piece). Defined from the last character backwards. */
  function Split(s: string, d: char): (r: seq<string>)
    ensures |r| >= 1
    decreases |s|
  {
    if s == [] then [[]] else Extend(Split(s[..|s| - 1], d), s[|s| - 1], d)
  }

  /** There is one more piece than there are separators. */
  lemma {:induction false} SplitCount(s: string, d: char)
    ensures |Split(s, d)| == multiset(s)[d] + 1
    decreases |s|
  {
    if s != [] {
      SplitCount(s[..|s| - 1], d);
      assert s == s[..|s| - 1] + [s[|s| - 1]];
    }
  }

  /** One more character read by the splitter: a separator opens a new
      piece, any other character lengthens the last one. */
  function Extend(ps: seq<string>, c: char, d: char): (r: seq<string>)
    requires |ps| >= 1
    ensures |r| == if c == d then |ps| + 1 else |ps|
  {
    if c == d then ps + [[]] else ps[..|ps| - 1] + [ps[|ps| - 1] + [c]]
  }

  lemma ExtendAfter(xs: seq<string>, ys: seq<string>, c: char, d: char)
    requires |ys| >= 1
    ensures Extend(xs + ys, c, d) == xs + Extend(ys, c, d)
  {
    if c != d {
      var zs := xs + ys;
      assert zs[..|zs| - 1] == xs + ys[..|ys| - 1];
    }
  }

  /** Python's `d.join(ps)` for a one-character separator `d`. */
  function Join(ps: seq<string>, d: char): string
  {
    if |ps| == 0 then []
    else if |ps| == 1 then ps[0]
    else Join(ps[..|ps| - 1], d) + [d] + ps[|ps| - 1]
  }

  /** Joining one more piece adds a separator and the piece. */
  lemma JoinSnoc(ps: seq<string>, p: string, d: char)
    requires |ps| >= 1
    ensures Join(ps + [p], d) == Join(ps, d) + [d] + p
  {
    assert (ps + [p])[..|ps|] == ps;
  }

  /** No piece of a split contains the separator. */
  lemma {:induction false} SplitPiecesFree(s: string, d: char)
    ensures forall k :: 0 <= k < |Split(s, d)| ==> d !in Split(s, d)[k]
    decreases |s|
  {
    if s != [] {
      SplitPiecesFree(s[..|s| - 1], d);
    }
  }

  /** Joining the pieces of a split gives back the original string. */
  lemma {:induction false} JoinSplit(s: string, d: char)
    ensures Join(Split(s, d), d) == s
    decreases |s|
  {
    if s != [] {
      var t, c := s[..|s| - 1], s[|s| - 1];
      var init := Split(t, d);
      JoinSplit(t, d);
      assert s == t + [c];
      SplitSnoc(t, c, d);
      JoinExtend(init, c, d);
    }
  }

  /** Extending the pieces by one character extends their join by it. */
  lemma JoinExtend(ps: seq<string>, c: char, d: char)
    requires |ps| >= 1
    ensures Join(Extend(ps, c, d), d) == Join(ps, d) + [c]
  {
    if c == d {
      JoinSnoc(ps, [], d);
    } else if |ps| > 1 {
      var front, last := ps[..|ps| - 1], ps[|ps| - 1];
      assert ps == front + [last];
      JoinSnoc(front, last, d);
      JoinSnoc(front, last + [c], d);
    }
  }

  /** A string without the separator splits into itself alone. */
  lemma {:induction false} SplitOfFree(x: string, d: char)
    requires d !in x
    ensures Split(x, d) == [x]
    decreases |x|
  {
    if x != [] {
      SplitOfFree(x[..|x| - 1], d);
      assert x == x[..|x| - 1] + [x[|x| - 1]];
    }
  }

  /** Reading one more character extends the split of what came before. */
  lemma SplitSnoc(t: string, c: char, d: char)
    ensures Split(t + [c], d) == Extend(Split(t, d), c, d)
  {
    assert (t + [c])[..|t|] == t;
  }

  /** Splitting at a separator splits each side independently. */
  lemma {:induction false} SplitAround(a: string, b: string, d: char)
    ensures Split(a + [d] + b, d) == Split(a, d) + Split(b, d)
    decreases |b|
  {
    if b == [] {
      assert a + [d] + b == a + [d];
      SplitSnoc(a, d, d);
    } else {
      var b', c := b[..|b| - 1], b[|b| - 1];
      assert a + [d] + b == (a + [d] + b') + [c];
      assert b == b' + [c];
      SplitSnoc(a + [d] + b', c, d);
      SplitSnoc(b', c, d);
      SplitAround(a, b', d);
      ExtendAfter(Split(a, d), Split(b', d), c, d);
    }
  }

  /** Two separator-free texts around one separator split into the two. */
  lemma SplitTwo(a: string, b: string, d: char)
    requires d !in a && d !in b
    ensures Split(a + [d] + b, d) == [a, b]
  {
    SplitAround(a, b, d);
    SplitOfFree(a, d);
    SplitOfFree(b, d);
  }

  /** Splitting a join of separator-free pieces gives back the pieces. */
  lemma {:induction false} SplitJoin(ps: seq<string>, d: char)
    requires |ps| >= 1
    requires forall k :: 0 <= k < |ps| ==> d !in ps[k]
    ensures Split(Join(ps, d), d) == ps
    decreases |ps|
  {
    var last := ps[|ps| - 1];
    SplitOfFree(last, d);
    if |ps| > 1 {
      var init := ps[..|ps| - 1];
      SplitJoin(init, d);
      assert Join(ps, d) == Join(init, d) + [d] + last;
      SplitAround(Join(init, d), last, d);
      assert ps == init + [last];
    }
  }

  // ------------------------------------------------------------------
  // Whitespace

  /** The ASCII characters Python's `str.strip()` removes. */
  predicate IsSpace(c: char)
  {
    c == ' ' || c == '\t' || c == '\n' || c == '\r' || c == '\U{B}' || c == '\U{C}'
  }

  ghost predicate AllSpace(s: string)
  {
    forall k :: 0 <= k < |s| ==> IsSpace(s[k])
  }

  /** Python's `s.lstrip()`: a suffix of `s`, starting at its first
      non-space character. */
  function TrimLeft(s: string): string
    decreases |s|
  {
    if s != [] && IsSpace(s[0]) then TrimLeft(s[1..]) else s
  }

  /** Python's `s.rstrip()`: a prefix of `s`, ending at its last
      non-space character. */
  function TrimRight(s: string): string
    decreases |s|
  {
    if s != [] && IsSpace(s[|s| - 1]) then TrimRight(s[..|s| - 1]) else s
  }

  /** Python's `s.strip()`. */
  function Strip(s: string): string
  {
    TrimRight(TrimLeft(s))
  }

  /** Leading white space in front of a non-space character is all that
      `lstrip` removes. */
  lemma {:induction false} TrimLeftAfterSpace(ws: string, t: string)
    requires AllSpace(ws)
    requires t != [] && !IsSpace(t[0])
    ensures TrimLeft(ws + t) == t
    decreases |ws|
  {
    if ws != [] {
      assert (ws + t)[1..] == ws[1..] + t;
      TrimLeftAfterSpace(ws[1..], t);
    }
  }

  /** `rstrip` never reaches into a prefix that ends in a non-space
      character. */
  lemma {:induction false} TrimRightKeepsPrefix(s: string, m: nat)
    requires m < |s| && !IsSpace(s[m])
    ensures |TrimRight(s)| > m && TrimRight(s)[..m + 1] == s[..m + 1]
    decreases |s|
  {
    if IsSpace(s[|s| - 1]) {
      var s' := s[..|s| - 1];
      TrimRightKeepsPrefix(s', m);
      assert s'[..m + 1] == s[..m + 1];
    }
  }

  // ------------------------------------------------------------------
  // Decimal integers

  predicate IsDigit(c: char)
  {
    '0' <= c <= '9'
  }

  predicate AllDigits(s: string)
  {
    forall k :: 0 <= k < |s| ==> IsDigit(s[k])
  }

  function DigitChar(n: nat): (c: char)
    requires n < 10
    ensures IsDigit(c)
  {
    ('0' as int + n) as char
  }

  /** The value of a run of decimal digits, most significant first. */
  function DigitsValue(s: string): nat
    requires AllDigits(s)
  {
    if s == [] then 0
    else DigitsValue(s[..|s| - 1]) * 10 + (s[|s| - 1] as int - '0' as int)
  }

  /** Python's `str(n)` for a natural number: its decimal digits without
      leading zeros. */
  function NatToString(n: nat): (s: string)
    ensures |s| >= 1 && AllDigits(s)
  {
    if n < 10 then [DigitChar(n)] else NatToString(n / 10) + [DigitChar(n % 10)]
  }

  /** Python's `str(i)` and `'%i' % i`, C++'s `std::to_string(i)`. */
  function IntToString(i: int): string
  {
    if i < 0 then "-" + NatToString(-i) else NatToString(i)
  }

  /** A decimal integer with an optional leading minus sign; `None` where
      Python's `int()` or C++'s `std::stoi` would fail. */
  function ParseInt(s: string): Option<int>
  {
    if |s| >= 2 && s[0] == '-' && AllDigits(s[1..]) then Some(-(DigitsValue(s[1..]) as int))
    else if |s| >= 1 && AllDigits(s) then Some(DigitsValue(s))
    else None
  }

  lemma {:induction false} DigitsValueOfNatToString(n: nat)
    ensures DigitsValue(NatToString(n)) == n
  {
    if n >= 10 {
      var s := NatToString(n);
      assert s[..|s| - 1] == NatToString(n / 10);
      DigitsValueOfNatToString(n / 10);
    }
  }

  /** Reading back the text of an integer gives the integer. */
  lemma ParseIntToString(i: int)
    ensures ParseInt(IntToString(i)) == Some(i)
  {
    if i < 0 {
      var s := IntToString(i);
      assert s[1..] == NatToString(-i);
      DigitsValueOfNatToString(-i);
    } else {
      DigitsValueOfNatToString(i);
    }
  }

  /** A printed integer holds only digits and perhaps a leading minus, so no
      quote, comma or newline. */
  lemma IntToStringPlain(v: int)
    ensures '"' !in IntToString(v) && ',' !in IntToString(v) && '\n' !in IntToString(v)
  {
    var s := IntToString(v);
    if v < 0 {
      assert s[1..] == NatToString(-v);
      assert forall k :: 1 <= k < |s| ==> IsDigit(s[k]);
    }
  }

  /** `n` copies of the character `'0'`. */
  function Zeros(n: nat): (z: string)
    ensures |z| == n && forall k :: 0 <= k < n ==> z[k] == '0'
  {
    seq(n, _ => '0')
  }

  /** Left-pads `s` with `'0'` up to width `w`; longer strings are kept. */
  function ZeroPad(s: string, w: nat): (p: string)
    ensures PaddedTo(p, s, w)
  {
    if |s| >= w then s
    else
      var p := Zeros(w - |s|) + s;
      assert p[w - |s|..] == s;
      p
  }

  /** `p` is `s` with just enough `'0'`s in front to reach width `w`: exactly
      `w` characters when `s` is shorter, `s` itself otherwise. */
  predicate PaddedTo(p: string, s: string, w: nat)
  {
    |p| == (if |s| >= w then |s| else w) &&
    p[|p| - |s|..] == s &&
    forall i :: 0 <= i < |p| - |s| ==> p[i] == '0'
  }

  /** Leading zeros do not change the value of a run of digits. */
  lemma {:induction false} LeadingZeros(n: nat, s: string)
    requires AllDigits(s)
    ensures AllDigits(Zeros(n) + s) && DigitsValue(Zeros(n) + s) == DigitsValue(s)
    decreases |s|
  {
    var t := Zeros(n) + s;
    if s == [] {
      ZerosValue(n);
      assert t == Zeros(n);
    } else {
      var s' := s[..|s| - 1];
      assert t[..|t| - 1] == Zeros(n) + s';
      LeadingZeros(n, s');
    }
  }

  lemma {:induction false} ZerosValue(n: nat)
    ensures DigitsValue(Zeros(n)) == 0
  {
    if n > 0 {
      assert Zeros(n)[..n - 1] == Zeros(n - 1);
      ZerosValue(n - 1);
    }
  }

  /** Zero-padding the text of a natural number keeps its value and gives
      at least `w` characters. */
  lemma ZeroPadValue(n: nat, w: nat)
    ensures |ZeroPad(NatToString(n), w)| >= w
    ensures ParseInt(ZeroPad(NatToString(n), w)) == Some(n)
  {
    var s := NatToString(n);
    DigitsValueOfNatToString(n);
    if |s| < w {
      LeadingZeros(w - |s|, s);
      assert ZeroPad(s, w)[0] == '0';
    } else {
      assert s[0] != '-';
    }
  }
}
