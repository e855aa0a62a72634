/** Byte strings as the LAN ingress reads them: CRLF-separated lines, blank lines,
    trimming, ASCII case folding and Python's reading of a decimal integer. */
module HttpText {
  import opened Common

  type byte = x: int | 0 <= x < 256
  type Bytes = seq<byte>

  const CR: byte := 13
  const LF: byte := 10
  const CRLF: Bytes := [CR, LF]
  const COLON: byte := 58

  function Ascii(s: string): (r: Bytes)
    ensures |r| == |s|
  {
    seq(|s|, i requires 0 <= i < |s| => s[i] as int % 256)
  }

  // ---------------------------------------------------------------- lines

  predicate IsCrlf(s: Bytes, i: int) {
    0 <= i && i + 1 < |s| && s[i] == CR && s[i + 1] == LF
  }

  /** The four bytes that end a request head start at `i`. */
  predicate IsBlank(s: Bytes, i: int) {
    IsCrlf(s, i) && IsCrlf(s, i + 2)
  }

  ghost predicate CrlfFree(s: Bytes) {
    forall i :: !IsCrlf(s, i)
  }

  function FindCrlf(s: Bytes, from: nat := 0): (r: int)
    requires from <= |s|
    ensures r >= 0 ==> from <= r && IsCrlf(s, r) && forall i :: from <= i < r ==> !IsCrlf(s, i)
    ensures r < 0 ==> r == -1 && forall i :: from <= i ==> !IsCrlf(s, i)
    decreases |s| - from
  {
    if IsCrlf(s, from) then from
    else if from == |s| then -1
    else FindCrlf(s, from + 1)
  }

  function FindBlank(s: Bytes, from: nat := 0): (r: int)
    requires from <= |s|
    ensures r >= 0 ==> from <= r && IsBlank(s, r) && forall i :: from <= i < r ==> !IsBlank(s, i)
    ensures r < 0 ==> r == -1 && forall i :: from <= i ==> !IsBlank(s, i)
    decreases |s| - from
  {
    if IsBlank(s, from) then from
    else if from == |s| then -1
    else FindBlank(s, from + 1)
  }

  /** `s.split(b"\r\n")`. */
  function Lines(s: Bytes): (r: seq<Bytes>)
    ensures |r| >= 1
    decreases |s|
  {
    var e := FindCrlf(s);
    if e < 0 then [s] else [s[..e]] + Lines(s[e + 2..])
  }

  /** `b"\r\n".join(lines)`. */
  function Join(lines: seq<Bytes>): Bytes
    requires |lines| >= 1
  {
    if |lines| == 1 then lines[0] else lines[0] + CRLF + Join(lines[1..])
  }

  ghost predicate AllCrlfFree(lines: seq<Bytes>) {
    forall k :: 0 <= k < |lines| ==> CrlfFree(lines[k])
  }

  /** Splitting loses nothing, and no line it yields holds a separator. */
  lemma {:induction false} JoinOfLines(s: Bytes)
    ensures Join(Lines(s)) == s && AllCrlfFree(Lines(s))
    decreases |s|
  {
    hide Lines, Join, FindCrlf;
    var e := FindCrlf(s);
    LinesOnce(s);
    if e >= 0 {
      var rest := s[e + 2..];
      JoinOfLines(rest);
      CrlfFreeBefore(s, e);
      JoinCons(s[..e], Lines(rest));
      CrlfAt(s, e);
    } else {
      JoinOne(s);
    }
  }

  lemma CrlfAt(s: Bytes, e: nat)
    requires IsCrlf(s, e)
    ensures s == s[..e] + CRLF + s[e + 2..]
  {
  }

  lemma LinesOnce(s: Bytes)
    ensures var e := FindCrlf(s);
            if e < 0 then Lines(s) == [s] && CrlfFree(s) else Lines(s) == [s[..e]] + Lines(s[e + 2..])
  {
  }

  lemma JoinOne(line: Bytes)
    ensures Join([line]) == line
  {
  }

  lemma JoinCons(line: Bytes, tail: seq<Bytes>)
    requires |tail| >= 1
    ensures Join([line] + tail) == line + CRLF + Join(tail)
  {
    assert ([line] + tail)[1..] == tail;
  }

  lemma CrlfFreeBefore(s: Bytes, e: nat)
    requires e <= |s| && forall i :: 0 <= i < e ==> !IsCrlf(s, i)
    ensures CrlfFree(s[..e])
  {
    assert forall i :: IsCrlf(s[..e], i) ==> IsCrlf(s, i);
  }

  lemma FirstCrlf(line: Bytes, rest: Bytes)
    requires CrlfFree(line)
    ensures FindCrlf(line + CRLF + rest) == |line|
  {
    var s := line + CRLF + rest;
    assert IsCrlf(s, |line|);
    assert forall i :: 0 <= i < |line| ==> s[i] == line[i];
    assert forall i :: IsCrlf(s, i) && i + 1 < |line| ==> IsCrlf(line, i);
  }

  lemma LinesOfCons(line: Bytes, rest: Bytes)
    requires CrlfFree(line)
    ensures Lines(line + CRLF + rest) == [line] + Lines(rest)
  {
    FirstCrlf(line, rest);
    var s := line + CRLF + rest;
    assert s[..|line|] == line;
    assert s[|line| + 2..] == rest;
  }

  /** Joining separator-free lines and splitting again gives back the lines. */
  lemma {:induction false} LinesOfJoin(lines: seq<Bytes>)
    requires |lines| >= 1 && AllCrlfFree(lines)
    ensures Lines(Join(lines)) == lines
  {
    if |lines| == 1 {
      assert FindCrlf(lines[0]) < 0;
    } else {
      var rest := Join(lines[1..]);
      LinesOfJoin(lines[1..]);
      LinesOfCons(lines[0], rest);
      assert lines == [lines[0]] + lines[1..];
    }
  }

  lemma {:induction false} JoinAppend(a: seq<Bytes>, b: seq<Bytes>)
    requires |a| >= 1 && |b| >= 1
    ensures Join(a + b) == Join(a) + CRLF + Join(b)
  {
    assert (a + b)[1..] == a[1..] + b;
    if |a| > 1 {
      JoinAppend(a[1..], b);
      assert Join(a + b) == a[0] + CRLF + (Join(a[1..]) + CRLF + Join(b));
    }
  }

  // ---------------------------------------------------------------- blank lines

  /** Where the first blank line of joined lines starts: after the line before it. */
  function BlankAfter(lines: seq<Bytes>): (r: int)
    requires |lines| >= 1
    ensures r >= -1
  {
    if |lines| < 3 then -1
    else if lines[1] == [] then |lines[0]|
    else
      var r := BlankAfter(lines[1..]);
      if r < 0 then -1 else |lines[0]| + 2 + r
  }

  lemma {:induction false} BlankOfJoin(lines: seq<Bytes>)
    requires |lines| >= 1 && AllCrlfFree(lines)
    ensures FindBlank(Join(lines)) == BlankAfter(lines)
  {
    var s := Join(lines);
    if |lines| == 1 {
      assert forall i :: IsBlank(s, i) ==> IsCrlf(s, i);
    } else {
      var n := |lines[0]|;
      var rest := Join(lines[1..]);
      BlankOfJoin(lines[1..]);
      FirstCrlf(lines[0], rest);
      assert s == lines[0] + CRLF + rest;
      forall i ensures IsBlank(s, i) <==> (i == n && IsCrlf(rest, 0)) || IsBlank(rest, i - n - 2) {
        if i == n + 1 { assert s[i] == LF; }
        if i >= n + 2 {
          assert IsCrlf(s, i) <==> IsCrlf(rest, i - n - 2);
          assert IsCrlf(s, i + 2) <==> IsCrlf(rest, i - n);
        }
        if i == n { assert IsCrlf(s, n + 2) <==> IsCrlf(rest, 0); }
      }
      StartsWithCrlf(lines[1..]);
      var e, f := FindBlank(s), FindBlank(rest);
      if IsCrlf(rest, 0) {
        assert IsBlank(s, n);
      } else {
        assert f >= 0 ==> IsBlank(s, n + 2 + f);
        assert e >= 0 ==> IsBlank(rest, e - n - 2);
      }
    }
  }

  lemma StartsWithCrlf(lines: seq<Bytes>)
    requires |lines| >= 1 && AllCrlfFree(lines)
    ensures IsCrlf(Join(lines), 0) <==> |lines| > 1 && lines[0] == []
  {
    if |lines| > 1 {
      FirstCrlf(lines[0], Join(lines[1..]));
    } else {
      assert CrlfFree(lines[0]);
    }
  }

  /** The first blank line is the last four bytes. */
  predicate CompleteHead(h: Bytes) {
    |h| >= 4 && FindBlank(h) == |h| - 4
  }

  /** A request head by lines: a start line, non-empty field lines, and the blank end. */
  predicate HeadShape(lines: seq<Bytes>) {
    && |lines| >= 3
    && lines[|lines| - 1] == [] && lines[|lines| - 2] == []
    && forall k :: 1 <= k < |lines| - 2 ==> lines[k] != []
  }

  lemma {:induction false} BlankAtEnd(lines: seq<Bytes>)
    requires |lines| >= 1
    ensures BlankAfter(lines) >= 0 ==> BlankAfter(lines) + 4 <= |Join(lines)|
    ensures BlankAfter(lines) >= 0 && BlankAfter(lines) + 4 == |Join(lines)| <==> HeadShape(lines)
  {
    if |lines| >= 3 {
      var tail := lines[1..];
      BlankAtEnd(tail);
      assert |Join(lines)| == |lines[0]| + 2 + |Join(tail)|;
      if lines[1] == [] {
        assert |Join(tail)| == 2 + |Join(tail[1..])|;
        assert |Join(tail[1..])| == 0 <==> |lines| == 3 && lines[2] == [];
        assert |lines| > 3 ==> !HeadShape(lines);
      } else {
        assert HeadShape(lines) <==> HeadShape(tail) by {
          assert forall k :: 1 <= k < |tail| - 2 ==> tail[k] == lines[k + 1];
          assert |lines| == 3 ==> !HeadShape(lines);
          if HeadShape(tail) {
            forall k | 1 <= k < |lines| - 2 ensures lines[k] != [] {
              if k > 1 { assert tail[k - 1] != []; }
            }
          }
        }
      }
    }
  }

  /** A complete head is exactly a start line, non-empty field lines and the end mark. */
  lemma HeadByLines(h: Bytes)
    ensures CompleteHead(h) <==> HeadShape(Lines(h))
  {
    JoinOfLines(h);
    BlankOfJoin(Lines(h));
    BlankAtEnd(Lines(h));
  }

  /** The first blank line of a stream does not move when more bytes follow. */
  lemma BlankIsStable(a: Bytes, b: Bytes)
    ensures FindBlank(a) >= 0 ==> FindBlank(a + b) == FindBlank(a)
    ensures FindBlank(a) < 0 && FindBlank(a + b) >= 0 ==> FindBlank(a + b) + 4 > |a|
  {
    forall i | 0 <= i && i + 4 <= |a| ensures IsBlank(a, i) <==> IsBlank(a + b, i) {}
  }

  /** Cutting a stream after its first blank line leaves a complete head. */
  lemma HeadOfStream(s: Bytes)
    requires FindBlank(s) >= 0
    ensures FindBlank(s) + 4 <= |s| && CompleteHead(s[..FindBlank(s) + 4])
  {
    var e := FindBlank(s);
    var h := s[..e + 4];
    forall i | 0 <= i && i + 4 <= |h| ensures IsBlank(h, i) <==> IsBlank(s, i) {}
  }

  // ---------------------------------------------------------------- fields

  predicate IsSpace(b: byte) {
    b == 32 || 9 <= b <= 13
  }

  function StripLeft(s: Bytes): Bytes {
    if s != [] && IsSpace(s[0]) then StripLeft(s[1..]) else s
  }

  function StripRight(s: Bytes): Bytes {
    if s != [] && IsSpace(s[|s| - 1]) then StripRight(s[..|s| - 1]) else s
  }

  function Strip(s: Bytes): Bytes {
    StripRight(StripLeft(s))
  }

  function Lower(s: Bytes): (r: Bytes)
    ensures |r| == |s|
  {
    seq(|s|, i requires 0 <= i < |s| => if 65 <= s[i] <= 90 then s[i] + 32 else s[i])
  }

  function Upper(s: Bytes): (r: Bytes)
    ensures |r| == |s|
  {
    seq(|s|, i requires 0 <= i < |s| => if 97 <= s[i] <= 122 then s[i] - 32 else s[i])
  }

  function IndexOf(s: Bytes, b: byte): (r: nat)
    ensures r <= |s| && b !in s[..r] && (r < |s| ==> s[r] == b)
  {
    if s == [] || s[0] == b then 0
    else
      var r := IndexOf(s[1..], b);
      assert s[..r + 1] == [s[0]] + s[1..][..r];
      1 + r
  }

  predicate HasColon(line: Bytes) {
    COLON in line
  }

  /** `line.partition(b":")[0].strip().lower()`. */
  function FieldName(line: Bytes): Bytes {
    Lower(Strip(line[..IndexOf(line, COLON)]))
  }

  /** `line.partition(b":")[2]`. */
  function FieldValue(line: Bytes): Bytes {
    var i := IndexOf(line, COLON);
    if i < |line| then line[i + 1..] else []
  }

  // ---------------------------------------------------------------- int(value)

  const MAX_INT_DIGITS := 4300
  const UNDERSCORE: byte := 95

  predicate IsDigit(b: byte) {
    48 <= b <= 57
  }

  /** Digits with single underscores between them, as `int` accepts. */
  predicate Grouped(s: Bytes) {
    && |s| > 0
    && IsDigit(s[0]) && IsDigit(s[|s| - 1])
    && forall i :: 0 <= i < |s| ==> IsDigit(s[i]) || (s[i] == UNDERSCORE && i + 1 < |s| && IsDigit(s[i + 1]))
  }

  function DigitsOf(s: Bytes): (r: Bytes)
    ensures |r| <= |s|
    ensures forall i :: 0 <= i < |s| && s[i] == UNDERSCORE ==> |r| < |s|
  {
    if s == [] then []
    else (if s[0] == UNDERSCORE then [] else [s[0]]) + DigitsOf(s[1..])
  }

  function DecimalValue(s: Bytes): int {
    if s == [] then 0 else 10 * DecimalValue(s[..|s| - 1]) + (s[|s| - 1] as int - 48)
  }

  /** Python's `int(value)` on bytes, with the interpreter's default digit limit. */
  function PyInt(value: Bytes): Option<int> {
    var s := Strip(value);
    var signed := s != [] && (s[0] == 43 || s[0] == 45);
    var body := if signed then s[1..] else s;
    if !Grouped(body) || |DigitsOf(body)| > MAX_INT_DIGITS then None
    else Some(if signed && s[0] == 45 then -DecimalValue(DigitsOf(body)) else DecimalValue(DigitsOf(body)))
  }

  function Decimal(n: nat): (r: Bytes)
    ensures |r| >= 1
    ensures forall i :: 0 <= i < |r| ==> IsDigit(r[i])
  {
    if n < 10 then [48 + n] else Decimal(n / 10) + [48 + n % 10]
  }

  lemma {:induction false} DecimalIsRead(n: nat)
    ensures DecimalValue(Decimal(n)) == n
  {
    if n >= 10 {
      DecimalIsRead(n / 10);
      assert Decimal(n)[..|Decimal(n)| - 1] == Decimal(n / 10);
    } else {
      assert Decimal(n)[..0] == [];
    }
  }

  lemma {:induction false} NothingGrouped(s: Bytes)
    requires forall i :: 0 <= i < |s| ==> IsDigit(s[i])
    ensures DigitsOf(s) == s
  {
    if s != [] {
      NothingGrouped(s[1..]);
      assert s == [s[0]] + s[1..];
    }
  }

  /** A length written in decimal is read back as that length, up to the digit limit. */
  lemma PyIntReadsDecimal(n: nat)
    ensures PyInt(Decimal(n)) == if |Decimal(n)| <= MAX_INT_DIGITS then Some(n as int) else None
  {
    var d := Decimal(n);
    assert StripLeft(d) == d && StripRight(d) == d;
    assert !(d[0] == 43 || d[0] == 45);
    assert Grouped(d) by {
      assert forall i :: 0 <= i < |d| ==> IsDigit(d[i]);
    }
    NothingGrouped(d);
    DecimalIsRead(n);
  }

  lemma GroupedAt(s: Bytes, i: nat)
    requires i < |s| && Grouped(s)
    ensures IsDigit(s[i]) || (s[i] == UNDERSCORE && i + 1 < |s| && IsDigit(s[i + 1]))
  {
  }

  // ---------------------------------------------------------------- numerals

  predicate IsRun(s: Bytes) {
    s != [] && forall i :: 0 <= i < |s| ==> IsDigit(s[i])
  }

  /** Runs of digits with an underscore between each two. */
  function Underscored(groups: seq<Bytes>): Bytes
    requires |groups| >= 1
  {
    if |groups| == 1 then groups[0] else groups[0] + ([UNDERSCORE] + Underscored(groups[1..]))
  }

  function Together(groups: seq<Bytes>): Bytes {
    if groups == [] then [] else groups[0] + Together(groups[1..])
  }

  /** A sign or none, and then such runs, the digits being as many as are read. */
  ghost predicate IsNumeral(s: Bytes, sign: Bytes, groups: seq<Bytes>) {
    && (sign == [] || sign == [43] || sign == [45])
    && |groups| >= 1 && (forall g :: g in groups ==> IsRun(g))
    && s == sign + Underscored(groups) && |Together(groups)| <= 4300
  }

  lemma {:induction false} UnderscoredIsGrouped(groups: seq<Bytes>)
    requires |groups| >= 1 && forall g :: g in groups ==> IsRun(g)
    ensures Grouped(Underscored(groups)) && DigitsOf(Underscored(groups)) == Together(groups)
  {
    assert groups[0] in groups && IsRun(groups[0]);
    if |groups| == 1 {
      assert Together(groups[1..]) == [] && groups[0] + [] == groups[0];
      RunIsGrouped(groups[0]);
    } else {
      assert forall g :: g in groups[1..] ==> g in groups;
      UnderscoredIsGrouped(groups[1..]);
      GroupedAppend(groups[0], Underscored(groups[1..]));
    }
  }

  lemma RunIsGrouped(g: Bytes)
    requires IsRun(g)
    ensures Grouped(g) && DigitsOf(g) == g
  {
    NothingGrouped(g);
    assert forall i :: 0 <= i < |g| ==> IsDigit(g[i]);
  }

  lemma GroupedAppend(g: Bytes, rest: Bytes)
    requires IsRun(g) && Grouped(rest)
    ensures Grouped(g + ([UNDERSCORE] + rest)) && DigitsOf(g + ([UNDERSCORE] + rest)) == g + DigitsOf(rest)
  {
    hide DigitsOf;
    var s := g + ([UNDERSCORE] + rest);
    forall i | 0 <= i < |s| ensures IsDigit(s[i]) || (s[i] == UNDERSCORE && i + 1 < |s| && IsDigit(s[i + 1])) {
      if i > |g| {
        GroupedAt(rest, i - |g| - 1);
      } else if i == |g| {
        GroupedAt(rest, 0);
        StartsWithDigit(rest);
      }
    }
    assert s[|s| - 1] == rest[|rest| - 1];
    hide *;
    DigitsAppend(g, [UNDERSCORE] + rest);
    NothingGrouped(g);
    NoUnderscore(rest);
  }

  lemma NoUnderscore(rest: Bytes)
    ensures DigitsOf([UNDERSCORE] + rest) == DigitsOf(rest)
  {
    assert ([UNDERSCORE] + rest)[1..] == rest;
  }

  lemma {:induction false} DigitsAppend(a: Bytes, b: Bytes)
    ensures DigitsOf(a + b) == DigitsOf(a) + DigitsOf(b)
  {
    if a == [] {
      assert a + b == b;
    } else {
      DigitsAppend(a[1..], b);
      DigitsFirst(a, b);
    }
  }

  lemma DigitsCons(x: byte, rest: Bytes)
    ensures DigitsOf([x] + rest) == (if x == UNDERSCORE then [] else [x]) + DigitsOf(rest)
  {
    assert ([x] + rest)[1..] == rest;
  }

  lemma DigitsFirst(a: Bytes, b: Bytes)
    requires a != [] && DigitsOf(a[1..] + b) == DigitsOf(a[1..]) + DigitsOf(b)
    ensures DigitsOf(a + b) == DigitsOf(a) + DigitsOf(b)
  {
    hide *;
    DigitsCons(a[0], a[1..]);
    DigitsCons(a[0], a[1..] + b);
    assert [a[0]] + a[1..] == a && [a[0]] + (a[1..] + b) == a + b;
  }

  lemma {:induction false} GroupsOf(s: Bytes) returns (groups: seq<Bytes>)
    requires Grouped(s)
    ensures |groups| >= 1 && (forall g :: g in groups ==> IsRun(g)) && s == Underscored(groups)
    decreases |s|
  {
    var i := IndexOf(s, UNDERSCORE);
    if i == |s| {
      forall k | 0 <= k < |s| ensures IsDigit(s[k]) {
        GroupedAt(s, k);
        assert s[..i][k] == s[k];
      }
      groups := [s];
    } else {
      var rest := s[i + 1..];
      AfterUnderscore(s, i);
      var more := GroupsOf(rest);
      groups := [s[..i]] + more;
      assert groups[1..] == more;
      assert s == s[..i] + ([UNDERSCORE] + rest);
    }
  }

  lemma AfterUnderscore(s: Bytes, i: nat)
    requires Grouped(s) && i < |s| && s[i] == UNDERSCORE && UNDERSCORE !in s[..i]
    ensures IsRun(s[..i]) && Grouped(s[i + 1..])
  {
    GroupedAt(s, i);
    forall k | 0 <= k < i ensures IsDigit(s[..i][k]) {
      GroupedAt(s, k);
      assert s[..i][k] == s[k];
    }
    var rest := s[i + 1..];
    forall k | 0 <= k < |rest|
      ensures IsDigit(rest[k]) || (rest[k] == UNDERSCORE && k + 1 < |rest| && IsDigit(rest[k + 1]))
    {
      GroupedAt(s, i + 1 + k);
    }
  }

  /** The number a numeral stands for. */
  function NumeralValue(sign: Bytes, groups: seq<Bytes>): int {
    if sign == [45] then -DecimalValue(Together(groups)) else DecimalValue(Together(groups))
  }

  /** What `int` reads: exactly numerals, trimmed, at their decimal value. */
  lemma PyIntReadsIff(v: Bytes, n: int)
    ensures PyInt(v) == Some(n) <==>
            exists sign, groups :: IsNumeral(Strip(v), sign, groups) && n == NumeralValue(sign, groups)
  {
    hide Strip, IsNumeral, NumeralValue, PyInt;
    if PyInt(v) == Some(n) {
      var sign, groups := NumeralOf(v, n);
    }
    if sign, groups :| IsNumeral(Strip(v), sign, groups) && n == NumeralValue(sign, groups) {
      NumeralIsRead(v, sign, groups);
    }
  }

  lemma NumeralOf(v: Bytes, n: int) returns (sign: Bytes, groups: seq<Bytes>)
    requires PyInt(v) == Some(n)
    ensures IsNumeral(Strip(v), sign, groups) && n == NumeralValue(sign, groups)
  {
    hide Grouped, DigitsOf, DecimalValue, Strip, Underscored, Together;
    var s := Strip(v);
    sign := if s != [] && (s[0] == 43 || s[0] == 45) then [s[0]] else [];
    var body := s[|sign|..];
    groups := GroupsOf(body);
    UnderscoredIsGrouped(groups);
    assert s == sign + body;
  }

  lemma NumeralIsRead(v: Bytes, sign: Bytes, groups: seq<Bytes>)
    requires IsNumeral(Strip(v), sign, groups)
    ensures PyInt(v) == Some(NumeralValue(sign, groups))
  {
    hide Grouped, DigitsOf, DecimalValue, Strip, Underscored, Together;
    var s, body := Strip(v), Underscored(groups);
    UnderscoredIsGrouped(groups);
    StartsWithDigit(body);
    assert s[|sign|..] == body;
    assert sign == [] ==> s == body;
  }

  lemma StartsWithDigit(s: Bytes)
    requires Grouped(s)
    ensures s != [] && IsDigit(s[0]) && s[0] != 43 && s[0] != 45
  {
  }
}
