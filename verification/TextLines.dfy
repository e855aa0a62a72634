/** Text as the environment files are read: Python's line splitting, trimming and
    partitioning. */
module TextLines {
  /** The characters `str.splitlines` breaks at; "\r\n" is one break. */
  predicate IsBreak(c: char) {
    || '\n' <= c <= '\r' || '\U{1c}' <= c <= '\U{1e}'
    || c == '\U{85}' || c == '\U{2028}' || c == '\U{2029}'
  }

  /** The characters `str.isspace` and `str.strip` call white space. */
  predicate IsSpace(c: char) {
    || IsBreak(c) || c == '\t' || c == '\U{1f}' || c == ' ' || c == '\U{a0}' || c == '\U{1680}'
    || '\U{2000}' <= c <= '\U{200a}' || c == '\U{202f}' || c == '\U{205f}' || c == '\U{3000}'
  }

  const BREAKS: string := "\n\U{0b}\U{0c}\r\U{1c}\U{1d}\U{1e}\U{85}\U{2028}\U{2029}"

  const BLANKS: string := "\t\U{1f} \U{a0}\U{1680}\U{2000}\U{2001}\U{2002}\U{2003}\U{2004}\U{2005}"
    + "\U{2006}\U{2007}\U{2008}\U{2009}\U{200a}\U{202f}\U{205f}\U{3000}"

  /** The two ranges above, character by character. */
  lemma BreaksAndBlanks(c: char)
    ensures IsBreak(c) <==> c in BREAKS
    ensures IsSpace(c) <==> c in BREAKS || c in BLANKS
  {
    assert c in BREAKS ==> IsBreak(c);
  }

  predicate BreakFree(s: string) {
    forall i :: 0 <= i < |s| ==> !IsBreak(s[i])
  }

  function FindBreak(s: string): (r: nat)
    ensures r <= |s| && BreakFree(s[..r]) && (r < |s| ==> IsBreak(s[r]))
  {
    if s == "" || IsBreak(s[0]) then 0 else 1 + FindBreak(s[1..])
  }

  function SplitLines(s: string): seq<string>
    decreases |s|
  {
    var r := FindBreak(s);
    if r == |s| then if s == "" then [] else [s]
    else if s[r] == '\r' && r + 1 < |s| && s[r + 1] == '\n' then [s[..r]] + SplitLines(s[r + 2..])
    else [s[..r]] + SplitLines(s[r + 1..])
  }

  /** Every line followed by a newline. */
  function WriteLines(lines: seq<string>): string {
    if lines == [] then "" else lines[0] + "\n" + WriteLines(lines[1..])
  }

  lemma BreakIsAt(s: string, r: nat)
    requires r <= |s| && BreakFree(s[..r]) && (r < |s| ==> IsBreak(s[r]))
    ensures FindBreak(s) == r
  {
    var f := FindBreak(s);
    assert forall k :: 0 <= k < r ==> s[k] == s[..r][k];
    assert forall k :: 0 <= k < f ==> s[k] == s[..f][k];
  }

  /** Where the line after the break at r starts. */
  predicate NextLine(text: string, r: nat, next: nat) {
    && r < next <= |text| && BreakFree(text[..r]) && IsBreak(text[r])
    && next == if text[r] == '\r' && r + 1 < |text| && text[r + 1] == '\n' then r + 2 else r + 1
  }

  lemma SplitAtBreak(text: string, r: nat, next: nat)
    requires NextLine(text, r, next)
    ensures SplitLines(text) == [text[..r]] + SplitLines(text[next..])
  {
    BreakIsAt(text, r);
  }

  lemma BreakAt(line: string, rest: string)
    requires BreakFree(line)
    ensures FindBreak(line + "\n" + rest) == |line|
  {
    var s := line + "\n" + rest;
    assert s[..|line|] == line && s[|line|] == '\n';
    BreakIsAt(s, |line|);
  }

  /** Writing lines without breaks and splitting again gives back the lines. */
  lemma {:induction false} SplitOfWritten(lines: seq<string>)
    requires forall l :: l in lines ==> BreakFree(l)
    ensures SplitLines(WriteLines(lines)) == lines
  {
    if lines != [] {
      var line, rest := lines[0], WriteLines(lines[1..]);
      SplitOfWritten(lines[1..]);
      BreakAt(line, rest);
      var s := line + "\n" + rest;
      assert s[..|line|] == line && s[|line| + 1..] == rest;
    }
  }

  lemma {:induction false} SplitIsBreakFree(s: string)
    ensures forall l :: l in SplitLines(s) ==> BreakFree(l)
    decreases |s|
  {
    var r := FindBreak(s);
    if r < |s| {
      SplitIsBreakFree(s[r + 1..]);
      if s[r] == '\r' && r + 1 < |s| && s[r + 1] == '\n' {
        SplitIsBreakFree(s[r + 2..]);
      }
    } else {
      assert s[..r] == s;
    }
  }

  // ---------------------------------------------------------------- what the lines are

  /** Each line with what ends it, one after another. */
  ghost function Glued(lines: seq<string>, ends: seq<string>): string
    requires |lines| == |ends|
  {
    if lines == [] then "" else lines[0] + ends[0] + Glued(lines[1..], ends[1..])
  }

  /** What ends a line: a break, which takes "\r\n" whole, or nothing after the last words. */
  ghost predicate Ends(lines: seq<string>, ends: seq<string>, i: nat)
    requires |lines| == |ends| && i < |lines|
  {
    && BreakFree(lines[i])
    && (|| ends[i] == "\r\n" || (|ends[i]| == 1 && ends[i][0] in BREAKS)
        || (ends[i] == "" && lines[i] != "" && i == |lines| - 1))
    && !(ends[i] == "\r" && i < |lines| - 1 && lines[i + 1] == "" && ends[i + 1] == "\n")
  }

  /** These are the lines of a text. */
  ghost predicate AreLines(s: string, lines: seq<string>, ends: seq<string>) {
    && |lines| == |ends| && s == Glued(lines, ends)
    && forall i :: 0 <= i < |lines| ==> Ends(lines, ends, i)
  }

  lemma AreLinesTail(s: string, lines: seq<string>, ends: seq<string>)
    requires AreLines(s, lines, ends) && lines != []
    ensures AreLines(Glued(lines[1..], ends[1..]), lines[1..], ends[1..])
  {
    forall i | 0 <= i < |lines| - 1 ensures Ends(lines[1..], ends[1..], i) {
      assert Ends(lines, ends, i + 1);
    }
  }

  /** Splitting finds the lines of a text. */
  lemma {:induction false} SplitFinds(s: string) returns (ends: seq<string>)
    ensures AreLines(s, SplitLines(s), ends)
    decreases |s|
  {
    hide IsBreak, AreLines;
    var r := FindBreak(s);
    if r == |s| {
      assert s[..r] == s;
      ends := if s == "" then [] else [""];
      OneLine(s);
    } else {
      var next := if s[r] == '\r' && r + 1 < |s| && s[r + 1] == '\n' then r + 2 else r + 1;
      var rest := SplitFinds(s[next..]);
      ends := [s[r..next]] + rest;
      LinesOneMore(s, r, next, SplitLines(s[next..]), rest);
      assert SplitLines(s) == [s[..r]] + SplitLines(s[next..]);
    }
  }

  lemma OneLine(s: string)
    requires BreakFree(s)
    ensures if s == "" then AreLines(s, [], []) else AreLines(s, [s], [""])
  {
    assert [s][1..] == [] && [""][1..] == [] && s + "" + "" == s;
  }

  lemma LinesOneMore(s: string, r: nat, next: nat, lines: seq<string>, ends: seq<string>)
    requires NextLine(s, r, next) && AreLines(s[next..], lines, ends)
    ensures AreLines(s, [s[..r]] + lines, [s[r..next]] + ends)
  {
    hide BreakFree, IsBreak;
    var end := s[r..next];
    BreaksAndBlanks(s[r]);
    GluedOne(s[..r], end, lines, ends);
    assert s == s[..r] + end + s[next..];
    if end == "\r" && lines != [] && lines[0] == "" && ends[0] == "\n" {
      FirstGlued(lines, ends);
    }
    EndsOne(s[..r], end, lines, ends);
  }

  lemma GluedOne(line: string, end: string, lines: seq<string>, ends: seq<string>)
    requires |lines| == |ends|
    ensures Glued([line] + lines, [end] + ends) == line + end + Glued(lines, ends)
  {
    assert ([line] + lines)[1..] == lines && ([end] + ends)[1..] == ends;
  }

  lemma EndsOne(line: string, end: string, lines: seq<string>, ends: seq<string>)
    requires |lines| == |ends| && BreakFree(line)
    requires end == "\r\n" || (|end| == 1 && end[0] in BREAKS)
    requires !(end == "\r" && lines != [] && lines[0] == "" && ends[0] == "\n")
    requires forall i :: 0 <= i < |lines| ==> Ends(lines, ends, i)
    ensures forall i :: 0 <= i < |lines| + 1 ==> Ends([line] + lines, [end] + ends, i)
  {
    forall i | 0 <= i < |lines| + 1 ensures Ends([line] + lines, [end] + ends, i) {
      if i > 0 {
        assert Ends(lines, ends, i - 1);
      }
    }
  }

  /** No other cutting of a text is its lines. */
  lemma {:induction false} SplitFindsAll(s: string, lines: seq<string>, ends: seq<string>)
    requires AreLines(s, lines, ends)
    ensures SplitLines(s) == lines
    decreases |lines|
  {
    hide IsBreak;
    if lines != [] {
      var line, end, rest := lines[0], ends[0], Glued(lines[1..], ends[1..]);
      assert Ends(lines, ends, 0);
      AreLinesTail(s, lines, ends);
      SplitFindsAll(rest, lines[1..], ends[1..]);
      assert s == line + end + rest && s[..|line|] == line;
      if end == "" {
        assert lines[1..] == [] && s == line;
        BreakIsAt(s, |line|);
      } else {
        assert s[|line|] == end[0] && s[|line| + |end|..] == rest;
        BreaksAndBlanks(end[0]);
        if end == "\r" && rest != "" && rest[0] == '\n' {
          NewlineFirst(rest, lines[1..], ends[1..]);
        }
        assert end == "\r\n" ==> s[|line| + 1] == '\n';
        assert |end| == 1 && |line| + 1 < |s| ==> s[|line| + 1] == rest[0];
        assert NextLine(s, |line|, |line| + |end|);
        SplitAtBreak(s, |line|, |line| + |end|);
      }
    }
  }

  lemma FirstGlued(lines: seq<string>, ends: seq<string>)
    requires lines != [] && |lines| == |ends|
    ensures lines[0] != "" ==> Glued(lines, ends) != "" && Glued(lines, ends)[0] == lines[0][0]
    ensures lines[0] == "" && ends[0] != "" ==> Glued(lines, ends) != "" && Glued(lines, ends)[0] == ends[0][0]
  {
  }

  /** The lines of a text are the one cutting of it at breaks. */
  lemma SplitLinesIff(s: string, lines: seq<string>)
    ensures SplitLines(s) == lines <==> exists ends :: AreLines(s, lines, ends)
  {
    hide AreLines;
    if SplitLines(s) == lines {
      var ends := SplitFinds(s);
    }
    if ends :| AreLines(s, lines, ends) {
      SplitFindsAll(s, lines, ends);
    }
  }

  lemma NewlineFirst(s: string, lines: seq<string>, ends: seq<string>)
    requires AreLines(s, lines, ends) && s != "" && s[0] == '\n'
    ensures lines != [] && lines[0] == "" && ends[0] == "\n"
  {
    assert Ends(lines, ends, 0);
    BreaksAndBlanks('\n');
    assert '\n' in BREAKS;
    FirstGlued(lines, ends);
  }

  // ---------------------------------------------------------------- name=value

  function IndexOf(s: string, c: char): (r: nat)
    ensures r <= |s| && c !in s[..r] && (r < |s| ==> s[r] == c)
  {
    if s == "" || s[0] == c then 0
    else
      var r := IndexOf(s[1..], c);
      assert s[..r + 1] == [s[0]] + s[1..][..r];
      1 + r
  }

  lemma IndexOfFirst(name: string, c: char, rest: string)
    requires c !in name
    ensures IndexOf(name + [c] + rest, c) == |name|
  {
    var s := name + [c] + rest;
    var r := IndexOf(s, c);
    assert s[|name|] == c;
    assert forall i :: 0 <= i < |name| ==> s[i] == name[i];
    assert forall i :: 0 <= i < r ==> s[i] == s[..r][i];
  }

  function Assignment(name: string, value: string): string {
    name + "=" + value
  }

  function StripLeft(s: string): string {
    if s != "" && IsSpace(s[0]) then StripLeft(s[1..]) else s
  }

  function StripRight(s: string): string {
    if s != "" && IsSpace(s[|s| - 1]) then StripRight(s[..|s| - 1]) else s
  }

  function Strip(s: string): string {
    StripRight(StripLeft(s))
  }

  lemma NothingToStrip(s: string)
    requires s != "" && !IsSpace(s[0]) && !IsSpace(s[|s| - 1])
    ensures Strip(s) == s
  {
  }

  lemma AssignmentCuts(name: string, value: string)
    requires '=' !in name
    ensures var line := Assignment(name, value);
            IndexOf(line, '=') == |name| < |line| && line[..|name|] == name && line[|name| + 1..] == value
  {
    assert Assignment(name, value) == name + ['='] + value;
    IndexOfFirst(name, '=', value);
  }

  /** Each key of a mapping once, in whatever order. */
  ghost predicate Lists(keys: seq<string>, names: set<string>) {
    (forall k :: k in keys <==> k in names) && forall i, j :: 0 <= i < j < |keys| ==> keys[i] != keys[j]
  }

  /** The order names are written in: the same for the same names, each name once. */
  type Order = set<string> -> seq<string>

  ghost predicate IsOrder(order: Order) {
    forall names :: Lists(order(names), names)
  }

  lemma OrderListsKeys(names: set<string>, order: Order)
    requires IsOrder(order)
    ensures Lists(order(names), names)
  {
  }

  function AssignmentLines(values: map<string, string>, keys: seq<string>): seq<string>
    requires forall k :: k in keys ==> k in values
  {
    seq(|keys|, i requires 0 <= i < |keys| => assert keys[i] in keys; Assignment(keys[i], values[keys[i]]))
  }
}
