/** What a line of an environment file is read as, and what the lines of a file declare. */
module EnvLines {
  import opened TextLines

  // ---------------------------------------------------------------- trimming

  /** White space and nothing else. */
  ghost predicate Blank(s: string) {
    forall i :: 0 <= i < |s| ==> s[i] in BREAKS || s[i] in BLANKS
  }

  /** A text that neither begins nor ends with white space, and what stands around it. */
  ghost predicate Padded(s: string, before: string, inner: string, after: string) {
    && s == before + inner + after && Blank(before) && Blank(after)
    && (inner != "" ==> !Blank([inner[0]]) && !Blank([inner[|inner| - 1]]))
  }

  lemma BlankIsSpace(s: string)
    ensures Blank(s) <==> forall i :: 0 <= i < |s| ==> IsSpace(s[i])
    ensures s != "" ==> (Blank([s[0]]) <==> IsSpace(s[0])) && (Blank([s[|s| - 1]]) <==> IsSpace(s[|s| - 1]))
  {
    hide IsSpace;
    forall i | 0 <= i < |s| ensures s[i] in BREAKS || s[i] in BLANKS <==> IsSpace(s[i]) {
      BreaksAndBlanks(s[i]);
    }
    if s != "" {
      BlankCharacter(s[0]);
      BlankCharacter(s[|s| - 1]);
    }
  }

  lemma BlankCharacter(c: char)
    ensures Blank([c]) <==> IsSpace(c)
  {
    BreaksAndBlanks(c);
    assert Blank([c]) ==> [c][0] in BREAKS || [c][0] in BLANKS;
  }

  lemma {:induction false} StripLeftCuts(s: string) returns (before: string)
    ensures s == before + StripLeft(s) && Blank(before)
    ensures StripLeft(s) != "" ==> !IsSpace(StripLeft(s)[0])
  {
    hide IsSpace, Blank;
    BlankIsSpace("");
    before := "";
    if s != "" && IsSpace(s[0]) {
      var more := StripLeftCuts(s[1..]);
      before := [s[0]] + more;
      BlankIsSpace(more);
      BlankIsSpace(before);
    }
  }

  lemma {:induction false} StripRightCuts(s: string) returns (after: string)
    ensures s == StripRight(s) + after && Blank(after)
    ensures StripRight(s) != "" ==> !IsSpace(StripRight(s)[|StripRight(s)| - 1])
    decreases |s|
  {
    hide IsSpace, Blank;
    BlankIsSpace("");
    after := "";
    if s != "" && IsSpace(s[|s| - 1]) {
      var front, last := s[..|s| - 1], s[|s| - 1];
      var more := StripRightCuts(front);
      after := more + [last];
      BlankOneMore(more, last);
      assert StripRight(s) == StripRight(front);
      OneMoreAfter(s, StripRight(front), more);
    }
  }

  lemma BlankOneMore(s: string, c: char)
    requires Blank(s) && IsSpace(c)
    ensures Blank(s + [c])
  {
    BreaksAndBlanks(c);
  }

  lemma OneMoreAfter(s: string, inner: string, more: string)
    requires s != "" && s[..|s| - 1] == inner + more
    ensures s == inner + (more + [s[|s| - 1]])
  {
    assert s == s[..|s| - 1] + [s[|s| - 1]];
  }

  /** Trimming takes off all the white space around a text. */
  lemma StripCuts(s: string) returns (before: string, after: string)
    ensures Padded(s, before, Strip(s), after)
  {
    hide IsSpace, Blank, StripLeft, StripRight;
    before := StripLeftCuts(s);
    after := StripRightCuts(StripLeft(s));
    BlankIsSpace(Strip(s));
    assert StripLeft(s) == Strip(s) + after;
    assert Strip(s) != "" ==> Strip(s)[0] == StripLeft(s)[0];
    assert s == before + (Strip(s) + after) == before + Strip(s) + after;
  }

  lemma {:induction false} StripLeftOf(before: string, rest: string)
    requires Blank(before) && (rest != "" ==> !IsSpace(rest[0]))
    ensures StripLeft(before + rest) == rest
  {
    hide IsSpace, Blank;
    var s := before + rest;
    if before == "" {
      assert s == rest;
    } else {
      BlankIsSpace(before);
      BlankIsSpace(before[1..]);
      assert s[1..] == before[1..] + rest;
      StripLeftOf(before[1..], rest);
    }
  }

  lemma {:induction false} StripRightOf(rest: string, after: string)
    requires Blank(after) && (rest != "" ==> !IsSpace(rest[|rest| - 1]))
    ensures StripRight(rest + after) == rest
    decreases |after|
  {
    hide IsSpace, Blank;
    var s := rest + after;
    if after == "" {
      assert s == rest;
    } else {
      var front := after[..|after| - 1];
      BlankIsSpace(after);
      BlankIsSpace(front);
      assert s[..|s| - 1] == rest + front && s[|s| - 1] == after[|after| - 1];
      StripRightOf(rest, front);
    }
  }

  /** What white space stands around a text is all there is to trim. */
  lemma StripIs(s: string, before: string, inner: string, after: string)
    requires Padded(s, before, inner, after)
    ensures Strip(s) == inner
  {
    hide IsSpace, Blank, StripLeft, StripRight;
    BlankIsSpace(inner);
    if inner == "" {
      BlankIsSpace(before);
      BlankIsSpace(after);
      BlankIsSpace(before + after);
      assert s == (before + after) + "" && s == before + after;
      StripLeftOf(before + after, "");
      StripRightOf("", "");
      assert "" + "" == "";
    } else {
      assert s == before + (inner + after);
      StripLeftOf(before, inner + after);
      StripRightOf(inner, after);
    }
  }

  // ---------------------------------------------------------------- lines that say something

  datatype Line = Skip | Entry(key: string, value: string) | Invalid

  /** No name is said twice. */
  ghost predicate SaidOnce(lines: seq<Line>) {
    forall i, j :: 0 <= i < j < |lines| && lines[i].Entry? && lines[j].Entry? ==> lines[i].key != lines[j].key
  }

  /** What lines read one after another add to what was read before: every one of them says
      something or may be skipped, and no name is said twice. */
  ghost predicate Adds(lines: seq<Line>, before: map<string, string>, values: map<string, string>) {
    && SaidOnce(lines)
    && (forall l :: l in lines ==> l != Invalid)
    && (forall l :: l in lines && l.Entry? ==> l.key !in before && l.key in values && values[l.key] == l.value)
    && (forall k :: k in before ==> k in values && values[k] == before[k])
    && forall k :: k in values ==> k in before || exists l :: l in lines && l.Entry? && l.key == k
  }

  lemma AddsNothing(before: map<string, string>, values: map<string, string>)
    ensures Adds([], before, values) <==> values == before
  {
    if Adds([], before, values) {
      assert values.Keys == before.Keys;
    }
  }

  lemma SaidOnceNext(line: Line, rest: seq<Line>)
    ensures SaidOnce([line] + rest) <==>
              SaidOnce(rest) && (line.Entry? ==> forall l :: l in rest && l.Entry? ==> l.key != line.key)
  {
    var lines := [line] + rest;
    assert lines[0] == line && forall j :: 0 <= j < |rest| ==> lines[j + 1] == rest[j];
    if SaidOnce(lines) {
      forall i, j | 0 <= i < j < |rest| && rest[i].Entry? && rest[j].Entry? ensures rest[i].key != rest[j].key {
        assert lines[i + 1].key != lines[j + 1].key;
      }
      forall l | l in rest && l.Entry? && line.Entry? ensures l.key != line.key {
        var j :| 0 <= j < |rest| && rest[j] == l;
        assert lines[0].key != lines[j + 1].key;
      }
    }
  }

  lemma AddsNext(line: Line, rest: seq<Line>, before: map<string, string>, values: map<string, string>)
    ensures Adds([line] + rest, before, values) <==>
              match line
              case Skip => Adds(rest, before, values)
              case Invalid => false
              case Entry(k, v) => k !in before && Adds(rest, before[k := v], values)
  {
    hide SaidOnce;
    SaidOnceNext(line, rest);
    var lines := [line] + rest;
    assert forall l :: l in lines <==> l == line || l in rest;
    if line.Entry? && line.key !in before {
      AddsEntry(line, rest, before, values);
    } else if line.Skip? {
      assert Adds(lines, before, values) <==> Adds(rest, before, values);
    } else {
      assert line in lines;
    }
  }

  lemma AddsEntry(line: Line, rest: seq<Line>, before: map<string, string>, values: map<string, string>)
    requires line.Entry? && line.key !in before
    ensures Adds([line] + rest, before, values) <==> Adds(rest, before[line.key := line.value], values)
  {
    hide SaidOnce;
    SaidOnceNext(line, rest);
    var lines, more := [line] + rest, before[line.key := line.value];
    assert forall l :: l in lines <==> l == line || l in rest;
    assert forall k :: k in more <==> k == line.key || k in before;
    if Adds(rest, more, values) {
      assert values[line.key] == more[line.key];
      assert forall k :: k in before ==> more[k] == before[k];
    }
  }

  /** What a line has to be like to give a name a value. */
  type Saying = (string, string, string) -> bool

  /** What these lines declare: each of them one value, or nothing, and no name twice. */
  ghost predicate Declares(lines: seq<string>, says: Saying, idle: string -> bool, values: map<string, string>) {
    && (forall l :: l in lines ==> idle(l) || exists k, v :: says(l, k, v))
    && (forall i, j, k, v, w :: 0 <= i < j < |lines| ==> !(says(lines[i], k, v) && says(lines[j], k, w)))
    && (forall l, k, v :: l in lines && says(l, k, v) ==> k in values && values[k] == v)
    && forall k :: k in values ==> exists l :: l in lines && says(l, k, values[k])
  }

  /** A line is read as what it says. */
  ghost predicate ReadsAs(raw: string, line: Line, says: Saying, idle: string -> bool) {
    && (line.Skip? <==> idle(raw))
    && forall k, v :: line == Entry(k, v) <==> says(raw, k, v)
  }

  lemma AddsDeclares(
      lines: seq<string>, read: seq<Line>, says: Saying, idle: string -> bool, values: map<string, string>)
    requires |read| == |lines| && forall i :: 0 <= i < |lines| ==> ReadsAs(lines[i], read[i], says, idle)
    requires Adds(read, map[], values)
    ensures Declares(lines, says, idle, values)
  {
    hide ReadsAs;
    forall l | l in lines
      ensures idle(l) || exists k, v :: says(l, k, v)
      ensures forall k, v :: says(l, k, v) ==> k in values && values[k] == v
    {
      var i :| 0 <= i < |lines| && lines[i] == l;
      assert read[i] in read;
      SaysWhatItReads(l, read[i], says, idle);
    }
    forall i, j, k, v, w | 0 <= i < j < |lines| && says(lines[i], k, v) ensures !says(lines[j], k, w) {
      SaysWhatItReads(lines[i], read[i], says, idle);
      SaysWhatItReads(lines[j], read[j], says, idle);
    }
    forall k | k in values ensures exists l :: l in lines && says(l, k, values[k]) {
      var e :| e in read && e.Entry? && e.key == k;
      var i :| 0 <= i < |read| && read[i] == e;
      SaysWhatItReads(lines[i], e, says, idle);
      assert lines[i] in lines && says(lines[i], k, values[k]);
    }
  }

  lemma SaysWhatItReads(raw: string, line: Line, says: Saying, idle: string -> bool)
    requires ReadsAs(raw, line, says, idle)
    ensures line.Skip? <==> idle(raw)
    ensures line.Entry? ==> says(raw, line.key, line.value)
    ensures forall k, v :: says(raw, k, v) ==> line == Entry(k, v)
  {
  }

  lemma DeclaresAdds(
      lines: seq<string>, read: seq<Line>, says: Saying, idle: string -> bool, values: map<string, string>)
    requires |read| == |lines| && forall i :: 0 <= i < |lines| ==> ReadsAs(lines[i], read[i], says, idle)
    requires Declares(lines, says, idle, values)
    ensures Adds(read, map[], values)
  {
    hide ReadsAs;
    forall i, j | 0 <= i < j < |read| && read[i].Entry? && read[j].Entry? ensures read[i].key != read[j].key {
      SaysWhatItReads(lines[i], read[i], says, idle);
      SaysWhatItReads(lines[j], read[j], says, idle);
    }
    forall e | e in read
      ensures e != Invalid
      ensures e.Entry? ==> e.key in values && values[e.key] == e.value
    {
      var i :| 0 <= i < |read| && read[i] == e;
      SaysWhatItReads(lines[i], e, says, idle);
      assert lines[i] in lines;
    }
    forall k | k in values ensures exists e :: e in read && e.Entry? && e.key == k {
      var l :| l in lines && says(l, k, values[k]);
      var i :| 0 <= i < |lines| && lines[i] == l;
      SaysWhatItReads(l, read[i], says, idle);
      assert read[i] in read;
    }
  }

  /** Lines that are read as what they say add what they declare. */
  lemma AddsWhatIsDeclared(
      lines: seq<string>, read: seq<Line>, says: Saying, idle: string -> bool, values: map<string, string>)
    requires |read| == |lines| && forall i :: 0 <= i < |lines| ==> ReadsAs(lines[i], read[i], says, idle)
    ensures Adds(read, map[], values) <==> Declares(lines, says, idle, values)
  {
    hide ReadsAs, Adds, Declares;
    if Adds(read, map[], values) {
      AddsDeclares(lines, read, says, idle, values);
    }
    if Declares(lines, says, idle, values) {
      DeclaresAdds(lines, read, says, idle, values);
    }
  }
}
