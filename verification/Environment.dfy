/** A codec of `name=value` lines, and two updates that go through it. */
module Environment {
  import opened Common
  import opened EnvLines
  import opened TextLines

  type Env = map<string, string>

  /** The reading of lines one after another, on top of what was read before. */
  function ReadLines(lines: seq<string>, values: Env): Option<Env> {
    if lines == [] then Some(values)
    else if lines[0] == "" then ReadLines(lines[1..], values)
    else
      var i := IndexOf(lines[0], '=');
      if i == |lines[0]| || i == 0 || i + 1 == |lines[0]| || lines[0][..i] in values then None
      else ReadLines(lines[1..], values[lines[0][..i] := lines[0][i + 1..]])
  }

  function Parsed(text: string): Option<Env> {
    ReadLines(SplitLines(text), map[])
  }

  function Serialized(values: Env, order: Order): string
    requires IsOrder(order)
  {
    OrderListsKeys(values.Keys, order);
    WriteLines(AssignmentLines(values, order(values.Keys)))
  }

  predicate Safe(value: string) {
    value != "" && '\n' !in value && '\r' !in value && '\0' !in value
  }

  predicate AllSafe(values: Env) {
    forall k :: k in values ==> Safe(values[k])
  }

  /** The text after setting these values, names the file lacks included. */
  function Merged(text: string, replacements: Env, order: Order): Option<string>
    requires IsOrder(order)
  {
    var parsed := Parsed(text);
    if parsed.None? || !AllSafe(replacements) then None
    else Some(Serialized(parsed.value + replacements, order))
  }

  /** The same, refusing a name the file does not declare. */
  function Replaced(text: string, replacements: Env, order: Order): Option<string>
    requires IsOrder(order)
  {
    var parsed := Parsed(text);
    if parsed.None? || !(replacements.Keys <= parsed.value.Keys) then None
    else Merged(text, replacements, order)
  }

  method Parse(text: string) returns (r: Option<Env>)
    ensures r == Parsed(text)
  {
    var values: Env := map[];
    var lines := SplitLines(text);
    for i := 0 to |lines|
      invariant ReadLines(lines[i..], values) == Parsed(text)
    {
      assert lines[i..][1..] == lines[i + 1..];
      var raw := lines[i];
      if raw == "" {
        continue;
      }
      var at := IndexOf(raw, '=');
      if at == |raw| || at == 0 || at + 1 == |raw| || raw[..at] in values {
        return None;
      }
      values := values[raw[..at] := raw[at + 1..]];
    }
    return Some(values);
  }

  method Merge(text: string, replacements: Env, order: Order) returns (r: Option<string>)
    requires IsOrder(order)
    ensures r == Merged(text, replacements, order)
    ensures r.Some? <==> Parsed(text).Some? && forall k :: k in replacements ==>
              var value := replacements[k]; value != "" && '\n' !in value && '\r' !in value && '\0' !in value
    ensures r.Some? ==> r.value == Serialized(Parsed(text).value + replacements, order)
  {
    var parsed := Parse(text);
    if parsed.None? {
      return None;
    }
    var values, left := parsed.value, replacements.Keys;
    while left != {}
      invariant left <= replacements.Keys
      invariant values == parsed.value + (replacements - left)
      invariant forall k :: k in replacements && k !in left ==> Safe(replacements[k])
      decreases left
    {
      var name :| name in left;
      if !Safe(replacements[name]) {
        return None;
      }
      values := values[name := replacements[name]];
      left := left - {name};
    }
    assert replacements - left == replacements;
    return Some(Serialized(values, order));
  }

  method Replace(text: string, replacements: Env, order: Order) returns (r: Option<string>)
    requires IsOrder(order)
    ensures r == Replaced(text, replacements, order)
    ensures r.Some? <==> Parsed(text).Some? && forall k :: k in replacements ==>
              var value := replacements[k];
              k in Parsed(text).value && value != "" && '\n' !in value && '\r' !in value && '\0' !in value
    ensures r.Some? ==> r.value == Serialized(Parsed(text).value + replacements, order)
  {
    var parsed := Parse(text);
    if parsed.None? {
      return None;
    }
    var values, left := parsed.value, replacements.Keys;
    while left != {}
      invariant left <= replacements.Keys
      invariant values == parsed.value + (replacements - left)
      invariant replacements.Keys - left <= parsed.value.Keys
      invariant forall k :: k in replacements && k !in left ==> Safe(replacements[k])
      decreases left
    {
      var name :| name in left;
      if name !in values || !Safe(replacements[name]) {
        assert name in parsed.value ==> !Safe(replacements[name]);
        return None;
      }
      values := values[name := replacements[name]];
      left := left - {name};
    }
    assert replacements - left == replacements && replacements.Keys - left == replacements.Keys;
    return Some(Serialized(values, order));
  }

  // ---------------------------------------------------------------- what a text declares

  /** A line that gives this name this value. */
  ghost predicate Says(raw: string, name: string, value: string) {
    raw == name + "=" + value && name != "" && '=' !in name && value != ""
  }

  ghost predicate SaysNothing(raw: string) {
    raw == ""
  }

  function LineOf(raw: string): Line {
    var i := IndexOf(raw, '=');
    if raw == "" then Skip
    else if i == |raw| || i == 0 || i + 1 == |raw| then Invalid
    else Entry(raw[..i], raw[i + 1..])
  }

  function LinesOf(lines: seq<string>): seq<Line> {
    seq(|lines|, i requires 0 <= i < |lines| => LineOf(lines[i]))
  }

  lemma LineIff(raw: string)
    ensures ReadsAs(raw, LineOf(raw), Says, SaysNothing)
  {
    forall k, v ensures LineOf(raw) == Entry(k, v) <==> Says(raw, k, v) {
      if LineOf(raw) == Entry(k, v) {
        assert raw == k + "=" + v;
      }
      if Says(raw, k, v) {
        assert raw == Assignment(k, v);
        AssignmentCuts(k, v);
      }
    }
  }

  lemma {:induction false} ReadLinesIff(lines: seq<string>, before: Env, values: Env)
    ensures ReadLines(lines, before) == Some(values) <==> Adds(LinesOf(lines), before, values)
    decreases |lines|
  {
    hide Adds, IndexOf;
    if lines == [] {
      AddsNothing(before, values);
    } else {
      var line := LineOf(lines[0]);
      assert LinesOf(lines) == [line] + LinesOf(lines[1..]);
      AddsNext(line, LinesOf(lines[1..]), before, values);
      ReadLinesIff(lines[1..], before, values);
      if line.Entry? {
        ReadLinesIff(lines[1..], before[line.key := line.value], values);
      }
    }
  }

  /** A text is read as exactly what its lines declare, and is refused where they declare nothing
      that can be said. */
  lemma ParsedIff(text: string, values: Env)
    ensures Parsed(text) == Some(values) <==> Declares(SplitLines(text), Says, SaysNothing, values)
  {
    hide SplitLines, ReadLines, Adds, Declares, ReadsAs, LineOf, Says, SaysNothing;
    var lines := SplitLines(text);
    ReadLinesIff(lines, map[], values);
    forall i | 0 <= i < |lines| ensures ReadsAs(lines[i], LinesOf(lines)[i], Says, SaysNothing) {
      LineIff(lines[i]);
    }
    AddsWhatIsDeclared(lines, LinesOf(lines), Says, SaysNothing, values);
  }

  // ---------------------------------------------------------------- what survives a file

  /** Names and values one line can hold. */
  predicate Lasting(values: Env) {
    forall k :: k in values ==>
      k != "" && '=' !in k && BreakFree(k) && values[k] != "" && BreakFree(values[k])
  }

  lemma LineReads(name: string, value: string, rest: seq<string>, before: Env)
    requires name != "" && '=' !in name && BreakFree(name) && value != "" && BreakFree(value)
    requires name !in before
    ensures BreakFree(Assignment(name, value))
    ensures ReadLines([Assignment(name, value)] + rest, before) == ReadLines(rest, before[name := value])
  {
    var line := Assignment(name, value);
    AssignmentCuts(name, value);
    assert forall i :: 0 <= i < |line| ==>
      line[i] == if i < |name| then name[i] else if i == |name| then '=' else value[i - |name| - 1];
    var lines := [line] + rest;
    assert lines[0] == line && lines[1..] == rest;
  }

  lemma {:induction false} WrittenReads(values: Env, keys: seq<string>, before: Env)
    requires Lasting(values) && forall k :: k in keys ==> k in values
    requires forall i, j :: 0 <= i < j < |keys| ==> keys[i] != keys[j]
    requires forall k :: k in keys ==> k !in before
    ensures ReadLines(AssignmentLines(values, keys), before) == Some(before + map k | k in keys :: values[k])
    ensures forall l :: l in AssignmentLines(values, keys) ==> BreakFree(l)
    decreases |keys|
  {
    hide Assignment, BreakFree, IndexOf;
    if keys == [] {
      assert before + map[] == before;
    } else {
      var k, rest := keys[0], keys[1..];
      var lines, later := AssignmentLines(values, keys), AssignmentLines(values, rest);
      LineReads(k, values[k], later, before);
      assert lines == [Assignment(k, values[k])] + later;
      WrittenReads(values, rest, before[k := values[k]]);
      ReadMore(values, keys, before);
    }
  }

  lemma ReadMore(values: Env, keys: seq<string>, before: Env)
    requires keys != [] && forall k :: k in keys ==> k in values
    ensures before[keys[0] := values[keys[0]]] + (map x | x in keys[1..] :: values[x])
         == before + map x | x in keys :: values[x]
  {
    assert keys == [keys[0]] + keys[1..];
  }

  lemma {:induction false} ReadIsLasting(lines: seq<string>, before: Env)
    requires Lasting(before) && forall l :: l in lines ==> BreakFree(l)
    ensures ReadLines(lines, before).Some? ==> Lasting(ReadLines(lines, before).value)
    decreases |lines|
  {
    if lines != [] {
      var line, rest := lines[0], lines[1..];
      assert BreakFree(line);
      if line == "" {
        ReadIsLasting(rest, before);
      } else {
        var i := IndexOf(line, '=');
        if !(i == |line| || i == 0 || i + 1 == |line| || line[..i] in before) {
          ReadIsLasting(rest, before[line[..i] := line[i + 1..]]);
        }
      }
    }
  }

  lemma ParsedIsLasting(text: string)
    ensures Parsed(text).Some? ==> Lasting(Parsed(text).value)
  {
    SplitIsBreakFree(text);
    ReadIsLasting(SplitLines(text), map[]);
  }

  lemma LastingSurvives(values: Env, order: Order)
    requires IsOrder(order) && Lasting(values)
    ensures Parsed(Serialized(values, order)) == Some(values)
  {
    hide Lasting, BreakFree, IndexOf, ReadLines, SplitLines, WriteLines, IsOrder;
    var keys := order(values.Keys);
    OrderListsKeys(values.Keys, order);
    WrittenReads(values, keys, map[]);
    SplitOfWritten(AssignmentLines(values, keys));
    assert map[] + (map k | k in keys :: values[k]) == values;
  }

  /** Reading inverts writing on exactly the mappings one line each can hold. */
  lemma RoundTripIff(values: Env, order: Order)
    requires IsOrder(order)
    ensures Parsed(Serialized(values, order)) == Some(values) <==> Lasting(values)
  {
    hide Lasting, Parsed, Serialized;
    if Lasting(values) {
      LastingSurvives(values, order);
    }
    ParsedIsLasting(Serialized(values, order));
  }

  /** Setting values twice, on a text that reads: the second over the first. */
  ghost predicate Stacks(text: string, a: Env, b: Env, order: Order)
    requires IsOrder(order) && Merged(text, a, order).Some?
  {
    Merged(Merged(text, a, order).value, b, order) == Merged(text, a + b, order)
  }

  lemma MergeTwice(text: string, a: Env, b: Env, order: Order)
    requires IsOrder(order) && Merged(text, a, order).Some? && Lasting(a)
    ensures Stacks(text, a, b, order)
  {
    hide Parsed, Serialized, Lasting, AllSafe;
    var parsed := Parsed(text).value;
    ParsedIsLasting(text);
    BothLast(parsed, a);
    LastingSurvives(parsed + a, order);
    assert (parsed + a) + b == parsed + (a + b);
    SafeTogether(a, b);
  }

  // ---------------------------------------------------------------- what a file weighs

  /** The characters written for these names. */
  function Letters(values: Env, keys: seq<string>): multiset<char>
    requires forall k :: k in keys ==> k in values
  {
    multiset(WriteLines(AssignmentLines(values, keys)))
  }

  function LineLetters(name: string, value: string): multiset<char> {
    multiset(name) + multiset(value) + multiset{'=', '\n'}
  }

  lemma LettersCons(values: Env, k: string, rest: seq<string>)
    requires k in values && forall x :: x in rest ==> x in values
    ensures forall x :: x in [k] + rest ==> x in values
    ensures Letters(values, [k] + rest) == LineLetters(k, values[k]) + Letters(values, rest)
  {
    var keys := [k] + rest;
    var line, lines := Assignment(k, values[k]), AssignmentLines(values, keys);
    assert lines[0] == line && lines[1..] == AssignmentLines(values, rest);
    assert WriteLines(lines) == line + "\n" + WriteLines(lines[1..]);
    assert multiset(line) == multiset(k) + multiset("=") + multiset(values[k]);
  }

  lemma {:induction false} LettersMiddle(values: Env, before: seq<string>, k: string, rest: seq<string>)
    requires k in values && forall x :: x in before + rest ==> x in values
    ensures forall x :: x in before + [k] + rest ==> x in values
    ensures Letters(values, before + [k] + rest) == LineLetters(k, values[k]) + Letters(values, before + rest)
    decreases |before|
  {
    hide Letters, LineLetters;
    if before == [] {
      assert before + [k] + rest == [k] + rest && before + rest == rest;
      LettersCons(values, k, rest);
    } else {
      var x, more := before[0], before[1..];
      assert before + rest == [x] + (more + rest) && before + [k] + rest == [x] + (more + [k] + rest);
      assert x in before + rest && forall y :: y in more + rest ==> y in before + rest;
      LettersMiddle(values, more, k, rest);
      LettersCons(values, x, more + rest);
      LettersCons(values, x, more + [k] + rest);
    }
  }

  /** The order of the names does not change the letters. */
  lemma {:induction false} LettersOfSet(values: Env, a: seq<string>, b: seq<string>, names: set<string>)
    requires Lists(a, names) && Lists(b, names) && names <= values.Keys
    ensures Letters(values, a) == Letters(values, b)
    decreases |a|
  {
    hide Letters, LineLetters, Lists;
    if a == [] {
      NothingListed(b, a, names);
    } else {
      var k, rest := a[0], a[1..];
      var i := ListedAt(b, a, names, 0);
      assert a == [k] + rest && a[..0] + a[1..] == rest && b == b[..i] + [k] + b[i + 1..];
      ListsWithout(a, 0, names);
      ListsWithout(b, i, names);
      ListedAreNames(rest, names - {k});
      ListedAreNames(b[..i] + b[i + 1..], names - {k});
      LettersOfSet(values, rest, b[..i] + b[i + 1..], names - {k});
      LettersCons(values, k, rest);
      LettersMiddle(values, b[..i], k, b[i + 1..]);
    }
  }

  lemma NothingListed(b: seq<string>, a: seq<string>, names: set<string>)
    requires Lists(a, names) && Lists(b, names)
    ensures a == [] ==> b == []
  {
    if b != [] {
      assert b[0] in b && b[0] in a;
    }
  }

  lemma ListedAt(b: seq<string>, a: seq<string>, names: set<string>, j: nat) returns (i: nat)
    requires Lists(a, names) && Lists(b, names) && j < |a|
    ensures i < |b| && b[i] == a[j] && a[j] in names
  {
    assert a[j] in a;
    i :| 0 <= i < |b| && b[i] == a[j];
  }

  lemma ListedAreNames(keys: seq<string>, names: set<string>)
    requires Lists(keys, names)
    ensures forall k :: k in keys ==> k in names
  {
  }

  lemma ListsWithout(keys: seq<string>, i: nat, names: set<string>)
    requires Lists(keys, names) && i < |keys|
    ensures Lists(keys[..i] + keys[i + 1..], names - {keys[i]})
  {
    var rest := keys[..i] + keys[i + 1..];
    forall k ensures k in rest <==> k in names - {keys[i]} {
      if k in rest {
        var j :| 0 <= j < |rest| && rest[j] == k;
        assert k == keys[if j < i then j else j + 1];
      }
      if k in names - {keys[i]} {
        var j :| 0 <= j < |keys| && keys[j] == k;
        assert k == rest[if j < i then j else j - 1];
      }
    }
  }

  /** Writing one more name adds its line's letters. */
  lemma LettersOfOneMore(values: Env, k: string, value: string, order: Order)
    requires IsOrder(order) && k !in values
    ensures multiset(Serialized(values[k := value], order))
         == multiset(Serialized(values, order)) + LineLetters(k, value)
  {
    hide IsOrder, WriteLines, LineLetters, Assignment;
    var more := values[k := value];
    var keys, all := order(values.Keys), order(more.Keys);
    OrderListsKeys(values.Keys, order);
    OrderListsKeys(more.Keys, order);
    assert more.Keys == values.Keys + {k};
    ListsOneMore(keys, values.Keys, k);
    LettersOfSet(more, all, [k] + keys, more.Keys);
    LettersCons(more, k, keys);
    assert AssignmentLines(more, keys) == AssignmentLines(values, keys);
    hide Lists, AssignmentLines;
  }

  lemma ListsOneMore(keys: seq<string>, names: set<string>, k: string)
    requires Lists(keys, names) && k !in names
    ensures Lists([k] + keys, names + {k})
  {
    assert forall x :: x in [k] + keys <==> x == k || x in keys;
  }

  lemma BothLast(a: Env, b: Env)
    requires Lasting(a) && Lasting(b)
    ensures Lasting(a + b)
  {
  }

  lemma SafeTogether(a: Env, b: Env)
    requires AllSafe(a)
    ensures AllSafe(a + b) <==> AllSafe(b)
  {
    if AllSafe(a + b) {
      forall k | k in b ensures Safe(b[k]) {
        assert (a + b)[k] == b[k];
      }
    }
  }

  /** A name or value that does not last shows when the values are merged again, or when it
      is merged once more by itself. */
  lemma UnlastingShows(text: string, a: Env, k: string, order: Order)
    requires IsOrder(order) && Merged(text, a, order).Some? && k in a && !Lasting(map[k := a[k]])
    ensures !Stacks(text, a, map[], order) || !Stacks(text, a, map[k := a[k]], order)
  {
    hide Parsed, Serialized, Lasting, IsOrder;
    var v := a[k];
    var written := Serialized(Parsed(text).value + a, order);
    var again := Parsed(written);
    assert a + map[] == a && a + map[k := v] == a;
    if again.Some? {
      ParsedIsLasting(written);
      assert again.value + map[] == again.value;
      MoreLetters(again.value, k, v, order);
      assert again.value + map[k := v] == again.value[k := v];
    }
  }

  lemma MoreLetters(values: Env, k: string, v: string, order: Order)
    requires IsOrder(order) && Lasting(values) && v != "" && !Lasting(map[k := v])
    ensures Serialized(values[k := v], order) != Serialized(values, order)
  {
    hide Serialized;
    if k in values {
      var rest, old_ := values - {k}, values[k];
      LettersOfOneMore(rest, k, v, order);
      LettersOfOneMore(rest, k, old_, order);
      assert rest[k := v] == values[k := v] && rest[k := old_] == values;
      var i :| 0 <= i < |v| && IsBreak(v[i]);
      var m := multiset(Serialized(rest, order));
      assert v[i] in multiset(v) && v[i] !in multiset(old_);
      assert (m + LineLetters(k, v))[v[i]] > (m + LineLetters(k, old_))[v[i]];
    } else {
      LettersOfOneMore(values, k, v, order);
      assert LineLetters(k, v)['='] >= 1;
    }
  }

  /** Merging twice is merging the second over the first, whatever the second is, exactly
      when the first fits on lines. */
  lemma MergeTwiceIff(text: string, a: Env, order: Order)
    requires IsOrder(order) && Merged(text, a, order).Some?
    ensures (forall b :: AllSafe(b) ==> Stacks(text, a, b, order)) <==> Lasting(a)
    ensures Lasting(a) ==> forall b :: Stacks(text, a, b, order)
  {
    hide Parsed, Serialized, Merged, Stacks, Lasting;
    if Lasting(a) {
      forall b ensures Stacks(text, a, b, order) {
        MergeTwice(text, a, b, order);
      }
    } else {
      var k := NotLasting(a);
      UnlastingShows(text, a, k, order);
      MergedIsSafe(text, a, order);
      assert AllSafe(map[]) && AllSafe(map[k := a[k]]);
    }
  }

  lemma NotLasting(a: Env) returns (k: string)
    requires !Lasting(a)
    ensures k in a && !Lasting(map[k := a[k]])
  {
    k :| k in a && !(k != "" && '=' !in k && BreakFree(k) && a[k] != "" && BreakFree(a[k]));
    var one := map[k := a[k]];
    assert k in one && one[k] == a[k];
  }

  lemma MergedIsSafe(text: string, a: Env, order: Order)
    requires IsOrder(order) && Merged(text, a, order).Some?
    ensures AllSafe(a)
  {
  }

  /** A value with a vertical tab in it can be merged, and nothing can be merged after it:
      what was written no longer reads. */
  lemma MergingTwiceCanFail(name: string, x: string, y: string, b: Env, order: Order)
    requires IsOrder(order) && AllSafe(b)
    requires Lasting(map[name := x]) && Safe(x) && Safe(y) && BreakFree(y) && '=' !in y
    ensures var a := map[name := x + ['\U{0b}'] + y];
            && AllSafe(a) && Merged("", a, order).Some? && Merged("", a + b, order).Some?
            && Merged(Merged("", a, order).value, b, order).None?
  {
    hide Serialized, Parsed, Assignment, Lasting;
    var a := map[name := x + ['\U{0b}'] + y];
    NotRead(name, x, y, order);
    OneLineWritten(name, a[name], order);
    assert map[] + a == a && map[] + (a + b) == a + b;
    assert a[name][0] == x[0];
  }

  lemma NotRead(name: string, x: string, y: string, order: Order)
    requires IsOrder(order) && Lasting(map[name := x]) && y != "" && BreakFree(y) && '=' !in y
    ensures Parsed(Serialized(map[name := x + ['\U{0b}'] + y], order)).None?
  {
    var value := x + ['\U{0b}'] + y;
    assert name in map[name := x];
    OneLineWritten(name, value, order);
    assert Assignment(name, x) + ['\U{0b}'] + y + "\n" == Assignment(name, value) + "\n";
    hide Serialized, SplitLines, Assignment, BreakFree, Lasting, IndexOf, IsOrder;
    LineReads(name, x, [y], map[]);
    CutInTwo(Assignment(name, x), y);
    OneName(y);
    assert [Assignment(name, x)] + [y] == [Assignment(name, x), y];
  }

  lemma OneName(line: string)
    requires line != "" && '=' !in line
    ensures forall before: Env :: ReadLines([line], before).None?
  {
    assert forall j :: 0 <= j < |line| ==> line[j] in line;
  }

  lemma OneLineWritten(name: string, value: string, order: Order)
    requires IsOrder(order)
    ensures Serialized(map[name := value], order) == Assignment(name, value) + "\n"
    ensures Parsed("") == Some(map[])
  {
    var values := map[name := value];
    var keys := order(values.Keys);
    var twice := |keys| > 1 && keys[0] == keys[1];
    assert forall i :: 0 <= i < |keys| ==> keys[i] in keys;
    OrderListsKeys(values.Keys, order);
    assert name in keys && !twice;
    assert keys == [name];
    hide Assignment, IsOrder;
    assert AssignmentLines(values, keys) == [Assignment(name, value)];
    WriteOne(Assignment(name, value));
  }

  lemma WriteOne(line: string)
    ensures WriteLines([line]) == line + "\n"
  {
    assert [line][1..] == [] && line + "\n" + "" == line + "\n";
  }

  lemma CutInTwo(first: string, second: string)
    requires BreakFree(first) && BreakFree(second) && second != ""
    ensures SplitLines(first + ['\U{0b}'] + second + "\n") == [first, second]
  {
    var s := first + ['\U{0b}'] + second + "\n";
    assert s[..|first|] == first && s[|first|] == '\U{0b}' && s[|first| + 1..] == second + "\n";
    assert NextLine(s, |first|, |first| + 1);
    hide *;
    SplitAtBreak(s, |first|, |first| + 1);
    SplitOfWritten([second]);
    WriteOne(second);
    assert [first] + [second] == [first, second];
  }

  /** A vertical tab passes the safety check and is still a line break to the reader. */
  lemma SafeIsNotLasting(order: Order)
    requires IsOrder(order)
    ensures var a: Env := map["K" := "a\U{0b}b"];
            && AllSafe(a) && !Lasting(a)
            && Parsed(Serialized(a, order)) != Some(a)
  {
    var a: Env := map["K" := "a\U{0b}b"];
    assert IsBreak(a["K"][1]);
    assert "K" in a;
    RoundTripIff(a, order);
  }

  /** A text set to these values reads as holding them exactly when they fit on lines. */
  lemma MergedReadsIff(text: string, a: Env, order: Order)
    requires IsOrder(order) && Merged(text, a, order).Some?
    ensures Parsed(Merged(text, a, order).value) == Some(Parsed(text).value + a) <==> Lasting(a)
  {
    var parsed := Parsed(text).value;
    ParsedIsLasting(text);
    RoundTripIff(parsed + a, order);
    if Lasting(a) {
      BothLast(parsed, a);
    } else {
      var k := NotLasting(a);
      assert (parsed + a)[k] == a[k];
      var one := map[k := a[k]];
      assert forall x :: x in one ==> x == k;
    }
    hide Parsed, Serialized;
  }

  /** Replacing is merging when every name is already declared, and refuses otherwise; it
      declares no other name, and reads as what was asked exactly when that fits on lines. */
  lemma ReplaceInventsNothing(text: string, replacements: Env, order: Order)
    requires IsOrder(order) && Replaced(text, replacements, order).Some?
    ensures Replaced(text, replacements, order) == Merged(text, replacements, order)
    ensures var after := Parsed(text).value + replacements;
            && after.Keys == Parsed(text).value.Keys
            && (Parsed(Replaced(text, replacements, order).value) == Some(after) <==> Lasting(replacements))
  {
    MergedReadsIff(text, replacements, order);
    hide Parsed, Serialized, Lasting, AllSafe;
  }
}
