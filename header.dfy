/** The optional first line of a merge table, `#version: MAJOR.MINOR`. */
module Header {
  import opened Symbols

  const VersionPrefix: string := "#version: "

  /** What reading the first line of a merge table gives: no header, a
      version tuple, or an integer conversion failure (Python's ValueError). */
  datatype HeaderResult = NoHeader | Version(v: seq<int>) | Malformed

  // ---------------------------------------------------------------------
  // Decimal numerals

  function DigitChar(d: nat): (c: char)
    requires d < 10
    ensures '0' <= c <= '9' && (c as int) - ('0' as int) == d
  {
    ['0', '1', '2', '3', '4', '5', '6', '7', '8', '9'][d]
  }

  predicate IsDigit(c: char)
  {
    '0' <= c <= '9'
  }

  predicate AllDigits(s: string)
  {
    forall i :: 0 <= i < |s| ==> IsDigit(s[i])
  }

  /** The decimal numeral of n, as Python's `'%s' % n` writes it. */
  function DigitStr(n: nat): (s: string)
    ensures s != [] && AllDigits(s)
  {
    if n < 10 then [DigitChar(n)] else DigitStr(n / 10) + [DigitChar(n % 10)]
  }

  function IntStr(x: int): (s: string)
    ensures s != []
  {
    if x < 0 then "-" + DigitStr(-x) else DigitStr(x)
  }

  /** The value of a string of decimal digits. */
  function DigitsValue(s: string): nat
    requires AllDigits(s)
  {
    if s == [] then 0
    else DigitsValue(s[..|s| - 1]) * 10 + ((s[|s| - 1] as int) - ('0' as int))
  }

  lemma {:induction false} DigitStrValue(n: nat)
    ensures DigitsValue(DigitStr(n)) == n
  {
    if n >= 10 {
      var s := DigitStr(n);
      assert s[..|s| - 1] == DigitStr(n / 10);
      DigitStrValue(n / 10);
    }
  }

  // ---------------------------------------------------------------------
  // Python's int() on a string, for ASCII numerals

  function StripLeft(s: string): (r: string)
    ensures |r| <= |s| && r == s[|s| - |r|..]
    ensures r == [] || !IsSpace(r[0])
  {
    if s != [] && IsSpace(s[0]) then StripLeft(s[1..]) else s
  }

  function StripRight(s: string): (r: string)
    ensures |r| <= |s| && r == s[..|r|]
    ensures r == [] || !IsSpace(r[|r| - 1])
  {
    if s != [] && IsSpace(s[|s| - 1]) then StripRight(s[..|s| - 1]) else s
  }

  /** `str.strip()` with no argument. */
  function Strip(s: string): string
  {
    StripRight(StripLeft(s))
  }

  /** `int(s)`: surrounding whitespace, an optional sign, then one or more digits. */
  function ParseInt(s: string): (r: Option<int>)
  {
    var t := Strip(s);
    if t != [] && (t[0] == '-' || t[0] == '+') then
      if t[1..] != [] && AllDigits(t[1..]) then
        var v: int := DigitsValue(t[1..]);
        Some(if t[0] == '-' then -v else v)
      else None
    else if t != [] && AllDigits(t) then Some(DigitsValue(t))
    else None
  }

  /** Stripping a word that neither starts nor ends with whitespace drops
      only the whitespace after it. */
  lemma StripTrailing(s: string, tail: string)
    requires s != [] && !IsSpace(s[0]) && !IsSpace(s[|s| - 1])
    requires forall i :: 0 <= i < |tail| ==> IsSpace(tail[i])
    ensures Strip(s + tail) == s
  {
    assert (s + tail)[0] == s[0];
    assert StripLeft(s + tail) == s + tail;
    StripRightTail(s, tail);
  }

  lemma {:induction false} StripRightTail(s: string, tail: string)
    requires s != [] && !IsSpace(s[|s| - 1])
    requires forall i :: 0 <= i < |tail| ==> IsSpace(tail[i])
    ensures StripRight(s + tail) == s
    decreases |tail|
  {
    if tail == [] {
      assert s + tail == s;
    } else {
      assert (s + tail)[..|s + tail| - 1] == s + tail[..|tail| - 1];
      StripRightTail(s, tail[..|tail| - 1]);
    }
  }

  /** int() reads back what '%s' writes, with trailing whitespace allowed. */
  lemma ParseIntStr(x: int, tail: string)
    requires forall i :: 0 <= i < |tail| ==> IsSpace(tail[i])
    ensures ParseInt(IntStr(x) + tail) == Some(x)
  {
    var n: nat := if x < 0 then -x else x;
    var d := DigitStr(n);
    DigitStrValue(n);
    ParseIntWritten(d, x < 0, tail);
    assert IntStr(x) == (if x < 0 then "-" + d else d);
  }

  /** int() reads a numeral, optionally after a minus sign and before
      whitespace. */
  lemma ParseIntWritten(d: string, negative: bool, tail: string)
    requires d != [] && AllDigits(d)
    requires forall i :: 0 <= i < |tail| ==> IsSpace(tail[i])
    ensures ParseInt((if negative then "-" + d else d) + tail) ==
      Some(if negative then -(DigitsValue(d) as int) else DigitsValue(d) as int)
  {
    var s := if negative then "-" + d else d;
    assert IsDigit(d[0]) && IsDigit(d[|d| - 1]);
    assert s[|s| - 1] == d[|d| - 1];
    StripTrailing(s, tail);
    if negative {
      ParseIntNegative(s + tail, d);
    } else {
      ParseIntDigits(s + tail, d);
    }
  }

  lemma ParseIntNegative(u: string, d: string)
    requires d != [] && AllDigits(d) && Strip(u) == "-" + d
    ensures ParseInt(u) == Some(-(DigitsValue(d) as int))
  {
    assert Strip(u)[1..] == d;
  }

  lemma ParseIntDigits(u: string, s: string)
    requires s != [] && AllDigits(s) && Strip(u) == s
    ensures ParseInt(u) == Some(DigitsValue(s) as int)
  {
    assert IsDigit(s[0]);
  }

  // ---------------------------------------------------------------------
  // Splitting on '.'

  /** `s.split(c)` for a one-character separator: every separator splits,
      empty pieces included. */
  function SplitOn(s: string, c: char): (r: seq<string>)
    ensures |r| >= 1
  {
    if s == [] then [""]
    else
      var rest := SplitOn(s[1..], c);
      if s[0] == c then [""] + rest else [[s[0]] + rest[0]] + rest[1..]
  }

  lemma {:induction false} SplitOnFree(s: string, c: char)
    requires forall i :: 0 <= i < |s| ==> s[i] != c
    ensures SplitOn(s, c) == [s]
  {
    if s != [] {
      SplitOnFree(s[1..], c);
      assert [s[0]] + s[1..] == s;
    }
  }

  lemma {:induction false} SplitOnFirst(x: string, c: char, y: string)
    requires forall i :: 0 <= i < |x| ==> x[i] != c
    ensures SplitOn(x + [c] + y, c) == [x] + SplitOn(y, c)
  {
    if x == [] {
      assert x + [c] + y == [c] + y;
      assert ([c] + y)[1..] == y;
    } else {
      assert (x + [c] + y)[1..] == x[1..] + [c] + y;
      SplitOnFirst(x[1..], c, y);
      assert [x[0]] + x[1..] == x;
    }
  }

  // ---------------------------------------------------------------------
  // The header line

  /** `write_header`: the first line of a written merge table.  The source
      formats the first two components of the version tuple. */
  function WriteHeader(version: seq<int>): (line: string)
    requires |version| >= 2
    ensures StartsWith(line, VersionPrefix)
  {
    VersionPrefix + IntStr(version[0]) + "." + IntStr(version[1]) + "\n"
  }

  /** The integer conversions of the '.'-separated parts, failing if any fails. */
  function ParseParts(parts: seq<string>): (r: Option<seq<int>>)
    ensures r.Some? ==> |r.value| == |parts|
  {
    if parts == [] then Some([])
    else
      var head, tail := ParseInt(parts[0]), ParseParts(parts[1..]);
      if head.Some? && tail.Some? then Some([head.value] + tail.value) else None
  }

  /** `maybe_header_version`: the version tuple of a header line. */
  function MaybeHeaderVersion(line: string): (r: HeaderResult)
    ensures r.NoHeader? <==> !StartsWith(line, VersionPrefix)
  {
    if !StartsWith(line, VersionPrefix) then NoHeader
    else match ParseParts(SplitOn(line[|VersionPrefix|..], '.'))
      case Some(v) => Version(v)
      case None => Malformed
  }

  lemma NoDotInIntStr(x: int)
    ensures forall i :: 0 <= i < |IntStr(x)| ==> IntStr(x)[i] != '.'
  {
    var s := IntStr(x);
    if x < 0 {
      assert forall i :: 1 <= i < |s| ==> s[i] == DigitStr(-x)[i - 1];
    }
  }

  lemma ParsePartsTwo(p: string, q: string, x: int, y: int)
    requires ParseInt(p) == Some(x) && ParseInt(q) == Some(y)
    ensures ParseParts([p, q]) == Some([x, y])
  {
    assert [q][1..] == [];
    var empty: seq<string> := [];
    assert ParseParts(empty) == Some([]);
    assert [q][1..] == empty;
    var ys: seq<int> := [];
    assert [y] + ys == [y];
    assert ParseParts([q]) == Some([y] + ys);
    assert [p, q][1..] == [q];
    assert ParseParts([p, q]) == Some([x] + [y]);
    assert [x] + [y] == [x, y];
  }

  lemma SplitHeaderBody(major: int, minor: int)
    ensures SplitOn(IntStr(major) + "." + IntStr(minor) + "\n", '.') == [IntStr(major), IntStr(minor) + "\n"]
  {
    var a, b := IntStr(major), IntStr(minor);
    NoDotInIntStr(major);
    NoDotInIntStr(minor);
    assert a + "." + b + "\n" == a + ['.'] + (b + "\n");
    SplitOnFirst(a, '.', b + "\n");
    assert forall i :: 0 <= i < |b + "\n"| ==> (b + "\n")[i] != '.' by {
      assert forall i :: 0 <= i < |b| ==> (b + "\n")[i] == b[i];
    }
    SplitOnFree(b + "\n", '.');
  }

  /** Reading back a written header gives the version it was written for. */
  lemma HeaderRoundTrip(major: int, minor: int)
    ensures MaybeHeaderVersion(WriteHeader([major, minor])) == Version([major, minor])
  {
    var line := WriteHeader([major, minor]);
    var a, b := IntStr(major), IntStr(minor);
    var body := a + "." + b + "\n";
    assert line == VersionPrefix + body;
    assert line[|VersionPrefix|..] == body;
    SplitHeaderBody(major, minor);
    ParseIntStr(major, "");
    assert a + "" == a;
    ParseIntStr(minor, "\n");
    ParsePartsTwo(a, b + "\n", major, minor);
  }
}
