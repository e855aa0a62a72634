/** The private environment files: how one is read, and how one is written back. */
module ProviderEnv {
  import opened Common
  import opened EnvLines
  import opened TextLines

  type Env = map<string, string>

  predicate Upper(c: char) { 'A' <= c <= 'Z' }

  predicate KeyChar(c: char) { Upper(c) || '0' <= c <= '9' || c == '_' }

  /** `[A-Z][A-Z0-9_]*`, the whole name. */
  predicate IsKey(s: string) {
    s != "" && Upper(s[0]) && forall i :: 0 <= i < |s| ==> KeyChar(s[i])
  }

  predicate Plain(value: string) {
    forall i :: 0 <= i < |value| ==> !IsSpace(value[i]) && value[i] >= ' '
  }

  /** Wrapped in one pair of the same quote. */
  predicate Quoted(value: string) {
    |value| >= 2 && value[0] == value[|value| - 1] && (value[0] == '"' || value[0] == '\'')
  }

  function Unquoted(value: string): string {
    if Quoted(value) then value[1..|value| - 1] else value
  }

  function ReadLine(raw: string): Line {
    var stripped := Strip(raw);
    if stripped == "" || stripped[0] == '#' then Skip
    else
      var i := IndexOf(stripped, '=');
      if i == |stripped| || !IsKey(stripped[..i]) then Invalid
      else
        var value := Unquoted(Strip(stripped[i + 1..]));
        if Plain(value) then Entry(stripped[..i], value) else Invalid
  }

  /** The reading of lines one after another, on top of what was read before. */
  function ReadLines(lines: seq<string>, values: Env): Option<Env> {
    if lines == [] then Some(values)
    else
      match ReadLine(lines[0])
      case Skip => ReadLines(lines[1..], values)
      case Invalid => None
      case Entry(k, v) => if k in values then None else ReadLines(lines[1..], values[k := v])
  }

  function Parsed(text: string): Option<Env> {
    ReadLines(SplitLines(text), map[])
  }

  method ParseProviderEnv(text: string) returns (r: Option<Env>)
    ensures r == Parsed(text)
  {
    hide Strip, IsKey, Plain, SplitLines, IndexOf;
    var values: Env := map[];
    var lines := SplitLines(text);
    for i := 0 to |lines|
      invariant ReadLines(lines[i..], values) == Parsed(text)
    {
      assert lines[i..][1..] == lines[i + 1..];
      var stripped := Strip(lines[i]);
      if stripped == "" || stripped[0] == '#' {
        continue;
      }
      var at := IndexOf(stripped, '=');
      if at == |stripped| || !IsKey(stripped[..at]) || stripped[..at] in values {
        return None;
      }
      var key, value := stripped[..at], Strip(stripped[at + 1..]);
      if Quoted(value) {
        value := value[1..|value| - 1];
      }
      if !Plain(value) {
        return None;
      }
      values := values[key := value];
    }
    return Some(values);
  }

  predicate Writable(values: Env) {
    forall k :: k in values ==> IsKey(k) && values[k] != "" && Plain(values[k])
  }

  /** The text written for a mapping whose names come in this order. */
  function Serialized(values: Env, keys: seq<string>): Option<string>
    requires forall k :: k in keys ==> k in values
  {
    if Writable(values) then Some(WriteLines(AssignmentLines(values, keys))) else None
  }

  function Unwrapped(values: Env): Env {
    map k | k in values :: Unquoted(values[k])
  }

  lemma AssignmentReads(key: string, value: string)
    requires IsKey(key) && value != "" && Plain(value)
    ensures BreakFree(Assignment(key, value))
    ensures ReadLine(Assignment(key, value)) == Entry(key, Unquoted(value))
  {
    var line := Assignment(key, value);
    assert line[0] == key[0] && line[|line| - 1] == value[|value| - 1];
    KeyIsPlain(key);
    NothingToStrip(line);
    NothingToStrip(value);
    AssignmentCuts(key, value);
    UnquotedIsPlain(value);
    AssignmentIsOneLine(key, value);
    hide IndexOf, Strip, Unquoted, IsKey, BreakFree, Plain, Assignment;
  }

  lemma AssignmentIsOneLine(key: string, value: string)
    requires (forall i :: 0 <= i < |key| ==> !IsSpace(key[i])) && Plain(value)
    ensures BreakFree(Assignment(key, value))
  {
    var line := Assignment(key, value);
    hide Assignment;
    forall i | 0 <= i < |line| ensures !IsBreak(line[i]) {
      CharacterOf(key, value, i);
    }
  }

  lemma CharacterOf(key: string, value: string, i: nat)
    requires i < |Assignment(key, value)|
    ensures var line := Assignment(key, value);
            && |line| == |key| + 1 + |value|
            && line[i] == if i < |key| then key[i] else if i == |key| then '=' else value[i - |key| - 1]
  {
  }

  lemma KeyIsPlain(key: string)
    requires IsKey(key)
    ensures key != "" && '=' !in key && key[0] != '#' && forall i :: 0 <= i < |key| ==> !IsSpace(key[i])
  {
    assert forall i :: 0 <= i < |key| ==> KeyChar(key[i]);
  }

  lemma UnquotedIsPlain(value: string)
    requires Plain(value)
    ensures Plain(Unquoted(value))
  {
    if Quoted(value) {
      assert forall i :: 0 <= i < |Unquoted(value)| ==> Unquoted(value)[i] == value[i + 1];
    }
  }

  lemma {:induction false} WrittenReads(values: Env, keys: seq<string>, before: Env)
    requires Writable(values) && forall k :: k in keys ==> k in values
    requires forall i, j :: 0 <= i < j < |keys| ==> keys[i] != keys[j]
    requires forall k :: k in keys ==> k !in before
    ensures ReadLines(AssignmentLines(values, keys), before)
         == Some(before + map k | k in keys :: Unquoted(values[k]))
    ensures forall l :: l in AssignmentLines(values, keys) ==> BreakFree(l)
    decreases |keys|
  {
    hide ReadLine, Plain, IsKey, Assignment, Unquoted, BreakFree;
    if keys == [] {
      assert before + map[] == before;
    } else {
      var k, rest := keys[0], keys[1..];
      AssignmentReads(k, values[k]);
      var lines, later := AssignmentLines(values, keys), AssignmentLines(values, rest);
      assert lines == [Assignment(k, values[k])] + later;
      WrittenReads(values, rest, before[k := Unquoted(values[k])]);
      ReadMore(values, keys, before);
    }
  }

  lemma ReadMore(values: Env, keys: seq<string>, before: Env)
    requires keys != [] && forall k :: k in keys ==> k in values
    ensures before[keys[0] := Unquoted(values[keys[0]])] + (map x | x in keys[1..] :: Unquoted(values[x]))
         == before + map x | x in keys :: Unquoted(values[x])
  {
    hide Unquoted;
    assert keys == [keys[0]] + keys[1..];
  }

  /** What is written is read back with one pair of quotes taken off each value. */
  lemma ParseOfSerialized(values: Env, keys: seq<string>)
    requires Writable(values) && Lists(keys, values.Keys)
    ensures Parsed(Serialized(values, keys).value) == Some(Unwrapped(values))
  {
    hide IsKey, Plain, BreakFree, ReadLines, SplitLines, WriteLines, AssignmentLines, Unquoted;
    WrittenReads(values, keys, map[]);
    SplitOfWritten(AssignmentLines(values, keys));
    assert map[] + (map k | k in keys :: Unquoted(values[k])) == Unwrapped(values);
  }

  /** Reading inverts writing on exactly the mappings without a value wrapped in quotes. */
  lemma RoundTripIff(values: Env, keys: seq<string>)
    requires Writable(values) && Lists(keys, values.Keys)
    ensures Parsed(Serialized(values, keys).value) == Some(values) <==> forall k :: k in values ==> !Quoted(values[k])
  {
    ParseOfSerialized(values, keys);
    forall k | k in values ensures Unquoted(values[k]) == values[k] <==> !Quoted(values[k]) {
      if Quoted(values[k]) {
        assert |Unquoted(values[k])| < |values[k]|;
      }
    }
    assert forall k :: k in values ==> Unwrapped(values)[k] == Unquoted(values[k]);
    if forall k :: k in values ==> !Quoted(values[k]) {
      assert Unwrapped(values) == values;
    }
  }

  /** Names and values as they are read; a value may be empty. */
  predicate Readings(values: Env) {
    forall k :: k in values ==> IsKey(k) && Plain(values[k])
  }

  /** What is read can be written again unless a value is empty. */
  lemma {:induction false} ReadIsPlain(lines: seq<string>, before: Env)
    requires Readings(before)
    ensures ReadLines(lines, before).Some? ==> Readings(ReadLines(lines, before).value)
    decreases |lines|
  {
    hide Plain, Strip, Unquoted, IndexOf, IsKey;
    if lines != [] {
      var line := ReadLine(lines[0]);
      if line.Skip? {
        ReadIsPlain(lines[1..], before);
      } else if line.Entry? && line.key !in before {
        ReadIsPlain(lines[1..], before[line.key := line.value]);
      }
    }
  }

  /** A value wrapped in quotes twice is read without the outer pair, and once it has been
      written so, without the inner one. */
  lemma QuotedTwice(key: string, value: string, quote: char)
    requires IsKey(key) && Plain(value) && Quoted(value) && (quote == '"' || quote == '\'')
    ensures Parsed(WriteLines([Assignment(key, [quote] + value + [quote])])) == Some(map[key := value])
    ensures Parsed(Serialized(map[key := value], [key]).value) == Some(map[key := Unquoted(value)])
    ensures Unquoted(value) != value
  {
    hide *;
    var wrapped := [quote] + value + [quote];
    assert Quoted(wrapped) && Plain(wrapped) && Unquoted(wrapped) == value by {
      WrappedOnce(value, quote);
    }
    UnquotedIsShorter(value);
    OneLineReads(key, wrapped);
    OneLineReads(key, value);
  }

  lemma WrappedOnce(value: string, quote: char)
    requires Plain(value) && (quote == '"' || quote == '\'')
    ensures var wrapped := [quote] + value + [quote];
            Quoted(wrapped) && Plain(wrapped) && Unquoted(wrapped) == value
  {
    var wrapped := [quote] + value + [quote];
    assert wrapped[1..|wrapped| - 1] == value;
    assert forall i :: 0 <= i < |wrapped| ==> wrapped[i] == quote || wrapped[i] == value[i - 1];
  }

  lemma UnquotedIsShorter(value: string)
    ensures Quoted(value) <==> Unquoted(value) != value
    ensures Quoted(value) ==> |Unquoted(value)| == |value| - 2
  {
  }

  lemma OneLineReads(key: string, value: string)
    requires IsKey(key) && Plain(value) && value != ""
    ensures Parsed(WriteLines([Assignment(key, value)])) == Some(map[key := Unquoted(value)])
    ensures Writable(map[key := value])
    ensures Serialized(map[key := value], [key]) == Some(WriteLines([Assignment(key, value)]))
  {
    hide Parsed, IsKey, Plain, Unquoted, WriteLines;
    var values := map[key := value];
    assert AssignmentLines(values, [key]) == [Assignment(key, value)];
    ParseOfSerialized(values, [key]);
    assert Unwrapped(values) == map[key := Unquoted(value)];
  }

  // ---------------------------------------------------------------- what a file declares

  const CAPITALS := "ABCDEFGHIJKLMNOPQRSTUVWXYZ"
  const DIGITS := "0123456789"

  /** A name a line may declare. */
  ghost predicate IsName(key: string) {
    && key != "" && key[0] in CAPITALS
    && forall c :: c in key ==> c in CAPITALS || c in DIGITS || c == '_'
  }

  /** A value without white space or a control character. */
  ghost predicate IsWord(value: string) {
    forall c :: c in value ==> c !in BREAKS && c !in BLANKS && c as int >= 32
  }

  lemma NamesAndWords(s: string)
    ensures IsKey(s) <==> IsName(s)
    ensures Plain(s) <==> IsWord(s)
  {
    forall c: char
      ensures Upper(c) <==> c in CAPITALS
      ensures KeyChar(c) <==> c in CAPITALS || c in DIGITS || c == '_'
    {
      KeyCharacter(c);
    }
    forall i | 0 <= i < |s| ensures IsSpace(s[i]) <==> s[i] in BREAKS || s[i] in BLANKS {
      BreaksAndBlanks(s[i]);
    }
    assert forall i :: 0 <= i < |s| ==> s[i] in s;
    hide KeyChar, Upper, IsSpace;
  }

  lemma KeyCharacter(c: char)
    ensures Upper(c) <==> c in CAPITALS
    ensures KeyChar(c) <==> c in CAPITALS || c in DIGITS || c == '_'
  {
  }

  /** How a value may stand on a line: in one pair of quotes, or bare where it is in none. */
  ghost predicate Spells(written: string, value: string) {
    || written == "\"" + value + "\"" || written == "'" + value + "'"
    || (written == value && !(|value| >= 2 && value[0] == value[|value| - 1] && value[0] in "\"'"))
  }

  ghost predicate Laid(raw: string, before: string, key: string, gap: string, written: string, after: string) {
    raw == before + (key + "=" + (gap + written)) + after && Blank(before) && Blank(gap) && Blank(after)
  }

  /** A line that declares this value under this name. */
  ghost predicate Says(raw: string, key: string, value: string) {
    && IsName(key) && IsWord(value)
    && exists before, gap, written, after :: Laid(raw, before, key, gap, written, after) && Spells(written, value)
  }

  /** A blank line, or a comment. */
  ghost predicate SaysNothing(raw: string) {
    Blank(raw) || exists before, rest :: raw == before + ("#" + rest) && Blank(before)
  }

  lemma SpellsIff(written: string, value: string)
    ensures Spells(written, value) <==> Unquoted(written) == value
  {
    if Quoted(written) {
      assert written == [written[0]] + written[1..|written| - 1] + [written[|written| - 1]];
    }
    if Spells(written, value) {
      assert ("\"" + value + "\"")[1..|value| + 1] == value && ("'" + value + "'")[1..|value| + 1] == value;
    }
  }

  lemma EntrySays(raw: string)
    requires ReadLine(raw).Entry?
    ensures Says(raw, ReadLine(raw).key, ReadLine(raw).value)
  {
    hide Strip, IndexOf, IsKey, Plain, Unquoted, Spells, IsName, IsWord, Blank;
    var stripped := Strip(raw);
    var i := IndexOf(stripped, '=');
    var key, rest := stripped[..i], stripped[i + 1..];
    var written := Strip(rest);
    var before, after := StripCuts(raw);
    var gap, trail := StripCuts(rest);
    NamesAndWords(key);
    NamesAndWords(Unquoted(written));
    SpellsIff(written, Unquoted(written));
    assert stripped == key + "=" + rest;
    BlankTogether(trail, after);
    assert raw == before + (key + "=" + (gap + written)) + (trail + after);
    assert Laid(raw, before, key, gap, written, trail + after);
  }

  lemma BlankTogether(a: string, b: string)
    ensures Blank(a + b) <==> Blank(a) && Blank(b)
  {
    var s := a + b;
    assert forall i :: 0 <= i < |a| ==> s[i] == a[i];
    assert forall i :: 0 <= i < |b| ==> s[|a| + i] == b[i];
  }

  lemma SaysEntry(raw: string, key: string, value: string)
    requires Says(raw, key, value)
    ensures ReadLine(raw) == Entry(key, value)
  {
    hide Strip, IndexOf, Unquoted, Spells, Blank, Says, IsKey, Plain, IsName, IsWord, IsSpace, Laid, Assignment;
    var before, gap, written, after := LaidOut(raw, key, value);
    NamesAndWords(key);
    NamesAndWords(value);
    SpellsIff(written, value);
    KeyIsPlain(key);
    WrittenEnds(written, value);
    if written == "" {
      EmptyEntry(raw, before, key, gap, after);
      StrippedEntry(raw, before, key, "", "", gap + after);
    } else {
      FullEntry(raw, before, key, gap, written, after);
      StrippedEntry(raw, before, key, gap, written, after);
    }
  }

  lemma EmptyEntry(raw: string, before: string, key: string, gap: string, after: string)
    requires Laid(raw, before, key, gap, "", after)
    ensures raw == before + Assignment(key, "" + "") + (gap + after)
    ensures Blank(before) && Blank("") && Blank(gap + after)
  {
    BlankTogether(gap, after);
    BlankIsSpace("");
    hide Blank;
    assert gap + "" == gap && key + "=" + gap + after == key + "=" + "" + (gap + after);
    assert before + (key + "=" + gap) + after == before + (key + "=" + "") + (gap + after);
  }

  lemma FullEntry(raw: string, before: string, key: string, gap: string, written: string, after: string)
    requires Laid(raw, before, key, gap, written, after)
    ensures raw == before + Assignment(key, gap + written) + after && Blank(before) && Blank(gap) && Blank(after)
  {
  }

  lemma StrippedEntry(raw: string, before: string, key: string, gap: string, written: string, after: string)
    requires raw == before + Assignment(key, gap + written) + after
    requires Blank(before) && Blank(gap) && Blank(after) && (written == "" ==> gap == "")
    requires key != "" && '=' !in key && !IsSpace(key[0])
    requires written != "" ==> !IsSpace(written[0]) && !IsSpace(written[|written| - 1])
    ensures var stripped := Strip(raw);
            && stripped != "" && stripped[0] == key[0]
            && IndexOf(stripped, '=') == |key| < |stripped| && stripped[..|key|] == key
            && Strip(stripped[|key| + 1..]) == written
  {
    hide Strip, IndexOf, Blank, IsSpace;
    var inner := Assignment(key, gap + written);
    AssignmentCuts(key, gap + written);
    assert inner == key + "=" + (gap + written);
    assert inner[0] == key[0];
    assert inner[|inner| - 1] == if written == "" then '=' else written[|written| - 1];
    BlankIsSpace(inner);
    BlankIsSpace("=");
    assert !IsSpace('=') by {
      BreaksAndBlanks('=');
    }
    StripIs(raw, before, inner, after);
    BlankIsSpace(written);
    BlankIsSpace("");
    assert gap + written == gap + written + "";
    StripIs(gap + written, gap, written, "");
  }

  lemma LaidOut(raw: string, key: string, value: string)
    returns (before: string, gap: string, written: string, after: string)
    requires Says(raw, key, value)
    ensures Laid(raw, before, key, gap, written, after) && Spells(written, value) && IsName(key) && IsWord(value)
  {
    before, gap, written, after :|
      Laid(raw, before, key, gap, written, after) && Spells(written, value);
  }

  lemma WrittenEnds(written: string, value: string)
    requires Unquoted(written) == value && Plain(value)
    ensures written != "" ==> !IsSpace(written[0]) && !IsSpace(written[|written| - 1])
  {
  }

  lemma SkipSaysNothing(raw: string)
    ensures ReadLine(raw).Skip? <==> SaysNothing(raw)
  {
    hide Strip, IndexOf, IsKey, Plain, Unquoted, Blank;
    var stripped := Strip(raw);
    var before, after := StripCuts(raw);
    BlankTogether(before, after);
    if stripped == "" {
      assert raw == before + after;
    } else if stripped[0] == '#' {
      assert raw == before + ("#" + (stripped[1..] + after));
    }
    if Blank(raw) {
      BlankIsSpace("");
      assert raw == raw + "" + "";
      StripIs(raw, raw, "", "");
    } else if b, rest :| raw == b + ("#" + rest) && Blank(b) {
      CommentIsSkipped(raw, b, rest);
    }
  }

  lemma CommentIsSkipped(raw: string, before: string, rest: string)
    requires raw == before + ("#" + rest) && Blank(before)
    ensures Strip(raw) != "" && Strip(raw)[0] == '#'
  {
    hide StripLeft, StripRight, Blank, IsSpace;
    assert !IsSpace('#') by {
      BreaksAndBlanks('#');
    }
    StripLeftOf(before, "#" + rest);
    var after := StripRightCuts("#" + rest);
    HashStays(rest, after);
    assert Strip(raw) == StripRight("#" + rest);
  }

  lemma HashStays(rest: string, after: string)
    requires "#" + rest == StripRight("#" + rest) + after && Blank(after)
    ensures StripRight("#" + rest) != "" && StripRight("#" + rest)[0] == '#'
  {
    hide StripRight;
    var s := "#" + rest;
    assert s[0] == '#';
    assert StripRight(s) == "" ==> after == s;
  }

  function Read(lines: seq<string>): seq<Line> {
    seq(|lines|, i requires 0 <= i < |lines| => ReadLine(lines[i]))
  }

  lemma {:induction false} ReadLinesIff(lines: seq<string>, before: Env, values: Env)
    ensures ReadLines(lines, before) == Some(values) <==> Adds(Read(lines), before, values)
    decreases |lines|
  {
    hide ReadLine, Adds;
    if lines == [] {
      AddsNothing(before, values);
    } else {
      var line := ReadLine(lines[0]);
      assert Read(lines) == [line] + Read(lines[1..]);
      AddsNext(line, Read(lines[1..]), before, values);
      ReadLinesIff(lines[1..], before, values);
      if line.Entry? {
        ReadLinesIff(lines[1..], before[line.key := line.value], values);
      }
    }
  }

  /** What a line is read as is what it says, and it says no more than that. */
  lemma LineIff(raw: string)
    ensures ReadsAs(raw, ReadLine(raw), Says, SaysNothing)
  {
    hide ReadLine, Says, SaysNothing;
    SkipSaysNothing(raw);
    forall k, v ensures ReadLine(raw) == Entry(k, v) <==> Says(raw, k, v) {
      if ReadLine(raw) == Entry(k, v) {
        EntrySays(raw);
      }
      if Says(raw, k, v) {
        SaysEntry(raw, k, v);
      }
    }
  }

  /** A text is read as exactly what its lines declare, and is refused where they declare nothing
      that can be said. */
  lemma ParsedIff(text: string, values: Env)
    ensures Parsed(text) == Some(values) <==> Declares(SplitLines(text), Says, SaysNothing, values)
  {
    hide SplitLines, ReadLines, Adds, Declares, ReadsAs, ReadLine, Says, SaysNothing;
    var lines := SplitLines(text);
    ReadLinesIff(lines, map[], values);
    forall i | 0 <= i < |lines| ensures ReadsAs(lines[i], Read(lines)[i], Says, SaysNothing) {
      LineIff(lines[i]);
    }
    AddsWhatIsDeclared(lines, Read(lines), Says, SaysNothing, values);
  }
}
