/** The lines of a known_hosts file: what they record under a name, and what becomes of one
    when a name on it gets a new key.

    A line is its white-space separated fields. Which lines OpenSSH matches to a name is
    OpenSSH's answer; for plain host lists it is whether the name is on the list. */
module KnownHosts {
  import opened Common
  import opened LineWords
  import opened TextLines

  datatype Line = Blank | Text(fields: seq<string>)

  datatype HostKey = HostKey(keyType: string, key: string)

  /** OpenSSH's own answers: for a hashed host, and for a marker or a pattern. */
  datatype OpenSsh = OpenSsh(hashed: (string, string) -> bool, pattern: (seq<string>, string) -> bool)

  // ---------------------------------------------------------------- host lists

  function Fold(s: string): (r: string)
    ensures |r| == |s|
  {
    seq(|s|, i requires 0 <= i < |s| => if 'A' <= s[i] <= 'Z' then (s[i] as int + 32) as char else s[i])
  }

  predicate IsHashed(host: string) { "|1|" <= host }

  predicate IsPattern(host: string) { '*' in host || '?' in host || '!' in host }

  predicate IsMarker(host: string) { host != "" && host[0] == '@' }

  predicate IsComment(host: string) { host != "" && host[0] == '#' }

  /** A host name that is one, and nothing else, wherever it stands in a list. */
  predicate IsName(host: string) {
    IsWord(host, IsSpace) && ',' !in host && !IsHashed(host) && !IsPattern(host) && !IsMarker(host) && !IsComment(host)
  }

  predicate OnList(host: string, name: string) {
    exists n :: n in SplitOn(host, ',') && Fold(n) == Fold(name)
  }

  /** A line whose key can be replaced: no marker, and no pattern that speaks for others. */
  predicate IsPlain(l: Line) {
    l.Text? && |l.fields| >= 3 && !IsMarker(l.fields[0]) && (IsHashed(l.fields[0]) || !IsPattern(l.fields[0]))
  }

  predicate Matches(o: OpenSsh, l: Line, name: string) {
    && l.Text? && |l.fields| >= 1 && !IsComment(l.fields[0])
    && if !IsPlain(l) then o.pattern(l.fields, name)
       else if IsHashed(l.fields[0]) then o.hashed(l.fields[0], name)
       else OnList(l.fields[0], name)
  }

  // ---------------------------------------------------------------- what is recorded

  /** Every key under a name, in file order; nothing when an entry is not a plain one. */
  function RecordedIn(o: OpenSsh, lines: seq<Line>, name: string): Option<seq<HostKey>> {
    if lines == [] then Some([])
    else
      var front, last := RecordedIn(o, lines[..|lines| - 1], name), lines[|lines| - 1];
      if front.None? || !Matches(o, last, name) then front
      else if !IsPlain(last) then None
      else Some(front.value + [HostKey(last.fields[1], last.fields[2])])
  }

  lemma {:induction false} RecordedAppend(o: OpenSsh, a: seq<Line>, b: seq<Line>, name: string)
    ensures var left, right := RecordedIn(o, a, name), RecordedIn(o, b, name);
            RecordedIn(o, a + b, name)
            == if left.None? || right.None? then None else Some(left.value + right.value)
    decreases |b|
  {
    hide OnList, IsMarker, IsHashed, IsPattern;
    NothingMore(RecordedIn(o, a, name));
    if b == [] {
      assert a + b == a;
    } else {
      var front, last := b[..|b| - 1], b[|b| - 1];
      RecordedAppend(o, a, front, name);
      assert (a + b)[..|a + b| - 1] == a + front && (a + b)[|a + b| - 1] == last;
      var before, more := RecordedIn(o, a, name), RecordedIn(o, front, name);
      if before.Some? && more.Some? && Matches(o, last, name) && IsPlain(last) {
        var entry := [HostKey(last.fields[1], last.fields[2])];
        assert (before.value + more.value) + entry == before.value + (more.value + entry);
      }
    }
  }

  lemma NothingMore(entries: Option<seq<HostKey>>)
    ensures entries.Some? ==> entries.value + [] == [] + entries.value == entries.value
  {
  }

  lemma RecordedOne(o: OpenSsh, l: Line, name: string)
    ensures RecordedIn(o, [l], name)
         == if !Matches(o, l, name) then Some([]) else if !IsPlain(l) then None
            else Some([HostKey(l.fields[1], l.fields[2])])
    ensures RecordedIn(o, [], name) == Some([])
  {
    hide OnList, IsMarker, IsHashed, IsPattern;
    assert [l][..0] == [] && [l][0] == l;
    if Matches(o, l, name) && IsPlain(l) {
      NothingMore(Some([HostKey(l.fields[1], l.fields[2])]));
    }
  }

  // ---------------------------------------------------------------- replacing

  function Without(names: seq<string>, alias: string): (r: seq<string>)
    ensures forall n :: n in r <==> n in names && Fold(n) != Fold(alias)
  {
    if names == [] then []
    else (if Fold(names[0]) == Fold(alias) then [] else [names[0]]) + Without(names[1..], alias)
  }

  /** A host list and the rest of its line, written with single spaces: when nothing is left
      of the list, the line starts with what followed it. */
  function Rewritten(host: string, rest: seq<string>): Line {
    Text(if host == "" then rest else [host] + rest)
  }

  /** What is left of an entry when the alias is taken off it. */
  function Shortened(l: Line, alias: string): seq<Line>
    requires l.Text? && |l.fields| >= 1
  {
    if IsHashed(l.fields[0]) then []
    else
      var remaining := Without(SplitOn(l.fields[0], ','), alias);
      if remaining == [] then [] else [Rewritten(JoinWith(remaining, ','), l.fields[1..])]
  }

  /** What is kept of one line when the alias gets a new key. */
  function Kept(o: OpenSsh, l: Line, alias: string): seq<Line> {
    if l.Blank? then []
    else if !Matches(o, l, alias) then [l]
    else Shortened(l, alias)
  }

  function NewLine(alias: string, key: HostKey): Line {
    Text([alias, key.keyType, key.key])
  }

  /** With the alias taken out, nothing is left of the list, or it still starts its line as
      a list of names does. */
  predicate StillAList(host: string, alias: string) {
    var remaining := Without(SplitOn(host, ','), alias);
    remaining == [] ||
    var left := JoinWith(remaining, ',');
    left != "" && !IsHashed(left) && !IsMarker(left) && !IsComment(left)
  }

  /** The alias and every name that is another one. */
  predicate Askable(name: string, alias: string) {
    IsName(name) && (name == alias || Fold(name) != Fold(alias))
  }

  /** What the list keeps names nobody, and what becomes of its line speaks for nobody. */
  ghost predicate Unheard(o: OpenSsh, l: Line, alias: string)
    requires l.Text? && |l.fields| >= 1
  {
    var remaining := Without(SplitOn(l.fields[0], ','), alias);
    && (forall m :: m in remaining ==> !IsName(m))
    && (remaining != [] ==>
          forall n :: Askable(n, alias) ==> !Matches(o, Rewritten(JoinWith(remaining, ','), l.fields[1..]), n))
  }

  /** A line whose rewriting other names do not notice. */
  ghost predicate KeepsOthers(o: OpenSsh, l: Line, alias: string) {
    Matches(o, l, alias) && !IsHashed(l.fields[0]) ==> StillAList(l.fields[0], alias) || Unheard(o, l, alias)
  }

  /** A hash is one host's, and answers for one name, letter case aside. */
  ghost predicate HashesAreSingle(o: OpenSsh) {
    && (forall h, m, n :: o.hashed(h, m) && o.hashed(h, n) ==> Fold(m) == Fold(n))
    && forall h, n :: o.hashed(h, n) ==> ',' !in h
  }

  /** A list that loses some names lists exactly the others, and gains no pattern. */
  lemma RemainingIsAList(host: string, alias: string)
    requires Without(SplitOn(host, ','), alias) != []
    ensures var left := JoinWith(Without(SplitOn(host, ','), alias), ',');
            SplitOn(left, ',') == Without(SplitOn(host, ','), alias) && (IsPattern(left) ==> IsPattern(host))
  {
    var remaining := Without(SplitOn(host, ','), alias);
    SplitParts(host, ',');
    SplitOfJoin(remaining, ',');
    JoinedCharacters(remaining, ',');
  }

  /** The same character, or the same letter in the other case. */
  predicate SameLetter(x: char, y: char) {
    x == y || ('A' <= x <= 'Z' && y as int == x as int + 32) || ('A' <= y <= 'Z' && x as int == y as int + 32)
  }

  /** Two names are one to the code exactly when they differ in letter case only. */
  lemma FoldIff(m: string, n: string)
    ensures Fold(m) == Fold(n) <==> |m| == |n| && forall i :: 0 <= i < |m| ==> SameLetter(m[i], n[i])
  {
    if Fold(m) == Fold(n) {
      assert |m| == |n|;
      forall i | 0 <= i < |m| ensures SameLetter(m[i], n[i]) {
        assert Fold(m)[i] == Fold(n)[i];
      }
    }
  }

  /** Letter case does not make a name, or unmake one. */
  lemma NamesFold(m: string, n: string)
    requires Fold(m) == Fold(n)
    ensures IsName(m) <==> IsName(n)
  {
    assert |m| == |Fold(m)| == |n|;
    forall i | 0 <= i < |m| ensures forall c :: c in SPECIAL ==> (m[i] == c <==> n[i] == c) {
      assert Fold(m)[i] == Fold(n)[i];
    }
    WordsFold(m, n);
    hide Fold, IsWord;
    assert forall c :: c in SPECIAL ==> (c in m <==> c in n);
    assert ',' in SPECIAL && '*' in SPECIAL && '?' in SPECIAL && '!' in SPECIAL && '@' in SPECIAL;
    assert '#' in SPECIAL && '|' in SPECIAL && '1' in SPECIAL;
  }

  lemma WordsFold(m: string, n: string)
    requires Fold(m) == Fold(n)
    ensures IsWord(m, IsSpace) <==> IsWord(n, IsSpace)
  {
    assert |m| == |Fold(m)| == |n|;
    forall i | 0 <= i < |m| ensures IsSpace(m[i]) <==> IsSpace(n[i]) {
      assert Fold(m)[i] == Fold(n)[i];
    }
  }

  const SPECIAL: set<char> := {',', '*', '?', '!', '@', '#', '|', '1'}

  /** A line that lists the alias and another name keeps listing that name, or it is hidden
      in what does not name anybody. */
  lemma ListedAfter(host: string, alias: string, other: string)
    requires Fold(other) != Fold(alias)
    ensures OnList(host, other) <==> exists m :: m in Without(SplitOn(host, ','), alias) && Fold(m) == Fold(other)
  {
    hide SplitOn, Fold;
  }

  /** What a line has to say of a name once the alias is off it. */
  function Due(o: OpenSsh, l: Line, alias: string, name: string): Option<seq<HostKey>> {
    if name == alias then Some([]) else RecordedIn(o, [l], name)
  }

  /** What is kept of a replaceable line says of any other name what the line said, and
      nothing of the alias. */
  lemma KeptSpeaks(o: OpenSsh, l: Line, alias: string, name: string)
    requires (Matches(o, l, alias) ==> IsPlain(l)) && KeepsOthers(o, l, alias)
    requires HashesAreSingle(o) && IsName(alias) && Askable(name, alias)
    ensures RecordedIn(o, Kept(o, l, alias), name) == Due(o, l, alias, name)
  {
    RecordedOne(o, l, name);
    hide RecordedIn, Fold, SplitOn, JoinWith, IsPattern;
    if l.Text? && Matches(o, l, alias) && !IsHashed(l.fields[0]) {
      var host, remaining := l.fields[0], Without(SplitOn(l.fields[0], ','), alias);
      if name != alias {
        ListedAfter(host, alias, name);
      }
      if remaining != [] {
        var k := Rewritten(JoinWith(remaining, ','), l.fields[1..]);
        RemainingIsAList(host, alias);
        RecordedOne(o, k, name);
        if StillAList(host, alias) {
          assert k.fields[1..] == l.fields[1..];
        } else {
          NamesNobody(remaining, name);
        }
      }
    }
  }

  lemma NamesNobody(names: seq<string>, name: string)
    requires IsName(name) && forall m :: m in names ==> !IsName(m)
    ensures forall m :: m in names ==> Fold(m) != Fold(name)
  {
    forall m | m in names ensures Fold(m) != Fold(name) {
      if Fold(m) == Fold(name) {
        NamesFold(m, name);
      }
    }
  }

  lemma NewLineSpeaks(o: OpenSsh, kept: seq<Line>, alias: string, key: HostKey, name: string)
    requires IsName(alias) && Askable(name, alias)
    ensures RecordedIn(o, kept + [NewLine(alias, key)], name)
         == if name != alias then RecordedIn(o, kept, name)
            else if RecordedIn(o, kept, alias).None? then None
            else Some(RecordedIn(o, kept, alias).value + [key])
  {
    var line := NewLine(alias, key);
    SplitOfOne(alias, ',');
    assert alias in SplitOn(alias, ',');
    RecordedOne(o, line, name);
    RecordedAppend(o, kept, [line], name);
    assert key == HostKey(key.keyType, key.key);
  }

  // ---------------------------------------------------------------- where the frame stops holding

  /** A line whose rewriting others would notice costs a name a key or gives one to somebody. */
  lemma NoticedLine(o: OpenSsh, l: Line, alias: string) returns (name: string)
    requires (Matches(o, l, alias) ==> IsPlain(l)) && !KeepsOthers(o, l, alias)
    requires IsName(alias) && HashesAreSingle(o)
    ensures Askable(name, alias) && RecordedIn(o, Kept(o, l, alias), name) != Due(o, l, alias, name)
  {
    var remaining := Without(SplitOn(l.fields[0], ','), alias);
    var k := Rewritten(JoinWith(remaining, ','), l.fields[1..]);
    if n :| Askable(n, alias) && Matches(o, k, n) {
      SpeaksAnew(o, l, alias, n);
      name := n;
    } else {
      var m :| m in remaining && IsName(m);
      RecordedOne(o, l, m);
      RecordedOne(o, k, m);
      ListedAfter(l.fields[0], alias, m);
      name := m;
    }
  }

  /** A spoiled line that speaks for a name says of it what it did not say before. */
  lemma SpeaksAnew(o: OpenSsh, l: Line, alias: string, name: string)
    requires Matches(o, l, alias) && IsPlain(l) && !IsHashed(l.fields[0]) && !StillAList(l.fields[0], alias)
    requires HashesAreSingle(o) && IsName(alias) && Askable(name, alias)
    requires var remaining := Without(SplitOn(l.fields[0], ','), alias);
             Matches(o, Rewritten(JoinWith(remaining, ','), l.fields[1..]), name)
    ensures var k := Rewritten(JoinWith(Without(SplitOn(l.fields[0], ','), alias), ','), l.fields[1..]);
            var said := RecordedIn(o, [k], name);
            said != Due(o, l, alias, name)
  {
    var host, remaining := l.fields[0], Without(SplitOn(l.fields[0], ','), alias);
    var left := JoinWith(remaining, ',');
    var k := Rewritten(left, l.fields[1..]);
    RecordedOne(o, l, name);
    RecordedOne(o, k, name);
    hide RecordedIn, SplitOn, JoinWith, Without, Fold, IsPattern;
    if name != alias && IsPlain(k) {
      assert ',' !in left && !IsName(left);
      JoinOfOne(remaining);
      NamesNobody([left], name);
      ListedAfter(host, alias, name);
      assert left in [left];
    }
  }

  lemma JoinOfOne(names: seq<string>)
    requires |names| >= 1
    ensures ',' in JoinWith(names, ',') || names == [JoinWith(names, ',')]
  {
    if |names| > 1 {
      assert JoinWith(names, ',')[|names[0]|] == ',';
    }
  }

  // ---------------------------------------------------------------- lines that are noticed

  /** A list of the alias and an empty name. */
  function Hollow(alias: string, other: string, key: HostKey): Line {
    Text([alias + [','], other, key.keyType, key.key])
  }

  const NOTE := "#"

  function AfterComment(other: string): string {
    NOTE + [','] + other
  }

  /** A list of the alias, a comment and a name. */
  function Muted(alias: string, other: string, key: HostKey): Line {
    Text([alias + [','] + AfterComment(other), key.keyType, key.key])
  }

  lemma WithoutCons(name: string, rest: seq<string>, alias: string)
    ensures Without([name] + rest, alias) == (if Fold(name) == Fold(alias) then [] else [name]) + Without(rest, alias)
    ensures Without([], alias) == []
  {
    assert ([name] + rest)[1..] == rest;
  }

  lemma Nameless(alias: string)
    requires IsName(alias)
    ensures Fold("") != Fold(alias) && Fold(NOTE) != Fold(alias)
  {
    assert !IsName("") && !IsName(NOTE);
    hide Fold;
    if Fold("") == Fold(alias) {
      NamesFold("", alias);
    }
    if Fold(NOTE) == Fold(alias) {
      NamesFold(NOTE, alias);
    }
  }

  lemma HollowList(alias: string)
    requires IsName(alias)
    ensures SplitOn(alias + [','], ',') == [alias, ""] && Without([alias, ""], alias) == [""]
  {
    Nameless(alias);
    hide Fold, Without, SplitOn;
    assert alias + [','] == alias + [','] + "" && [alias] + [""] == [alias, ""];
    SplitOfCons(alias, ',', "");
    SplitOfOne("", ',');
    WithoutCons(alias, [""], alias);
    WithoutCons("", [], alias);
  }

  /** A host list that reads as the alias, a comment and a name. */
  ghost predicate IsMuted(host: string, left: string, alias: string, other: string) {
    && SplitOn(host, ',') == [alias, NOTE, other] && Without([alias, NOTE, other], alias) == [NOTE, other]
    && JoinWith([NOTE, other], ',') == left && IsComment(left)
    && !IsHashed(host) && !IsPattern(host) && !IsMarker(host) && !IsComment(host)
  }

  lemma MutedList(alias: string, other: string)
    requires IsName(alias) && IsName(other) && Fold(other) != Fold(alias)
    ensures IsMuted(alias + [','] + AfterComment(other), AfterComment(other), alias, other)
  {
    Nameless(alias);
    StillPlain(alias, AfterComment(other));
    SplitMuted(alias, other);
    WithoutMuted(alias, other);
    hide Fold, SplitOn, Without;
    assert [NOTE, other][1..] == [other] && JoinWith([other], ',') == other;
    assert AfterComment(other)[0] == '#' && !IsPattern(AfterComment(other));
  }

  lemma SplitMuted(alias: string, other: string)
    requires ',' !in alias && ',' !in other
    ensures SplitOn(alias + [','] + AfterComment(other), ',') == [alias, NOTE, other]
  {
    hide SplitOn;
    SplitOfOne(other, ',');
    SplitOfCons(NOTE, ',', other);
    SplitOfCons(alias, ',', AfterComment(other));
    assert [NOTE] + [other] == [NOTE, other] && [alias] + [NOTE, other] == [alias, NOTE, other];
  }

  lemma WithoutMuted(alias: string, other: string)
    requires Fold(NOTE) != Fold(alias) && Fold(other) != Fold(alias)
    ensures Without([alias, NOTE, other], alias) == [NOTE, other]
  {
    hide Fold, Without;
    assert [NOTE] + [other] == [NOTE, other] && [alias] + [NOTE, other] == [alias, NOTE, other];
    assert [other] + [] == [other];
    WithoutCons(alias, [NOTE, other], alias);
    WithoutCons(NOTE, [other], alias);
    WithoutCons(other, [], alias);
  }

  /** A line with one name says its key of that name. */
  lemma OneNameSays(o: OpenSsh, host: string, key: HostKey, name: string)
    requires IsName(host) && IsName(name)
    ensures RecordedIn(o, [NewLine(host, key)], name) == if Fold(name) == Fold(host) then Some([key]) else Some([])
  {
    SplitOfOne(host, ',');
    assert host in [host] && key == HostKey(key.keyType, key.key);
    RecordedOne(o, NewLine(host, key), name);
  }

  /** Written without the alias, such a list speaks for another name, with its own key. */
  lemma HollowListSpeaksForAnother(o: OpenSsh, alias: string, other: string, key: HostKey, name: string)
    requires IsName(alias) && IsName(other) && IsName(name) && Fold(name) != Fold(alias)
    ensures Matches(o, Hollow(alias, other, key), alias) && IsPlain(Hollow(alias, other, key))
    ensures RecordedIn(o, [Hollow(alias, other, key)], name) == Some([])
    ensures Kept(o, Hollow(alias, other, key), alias) == [NewLine(other, key)]
    ensures Fold(name) == Fold(other) ==> RecordedIn(o, [NewLine(other, key)], name) == Some([key])
  {
    var l := Hollow(alias, other, key);
    HollowList(alias);
    Nameless(name);
    OneNameSays(o, other, key, name);
    hide Fold, SplitOn, Without, RecordedIn;
    assert alias in [alias, ""] && l.fields[1..] == [other, key.keyType, key.key];
    assert Matches(o, l, alias) && IsPlain(l) && !IsHashed(l.fields[0]) by {
      StillPlain(alias, "");
    }
    RecordedOne(o, l, name);
  }

  lemma StillPlain(alias: string, more: string)
    requires IsName(alias) && !IsPattern(more)
    ensures var host := alias + [','] + more;
            !IsHashed(host) && !IsPattern(host) && !IsMarker(host) && !IsComment(host)
  {
    var host := alias + [','] + more;
    assert host[0] == alias[0];
    assert host[|alias|] == ',';
    assert |alias| >= 3 ==> alias[..3] == host[..3];
  }

  lemma MutedLineIsKept(o: OpenSsh, host: string, left: string, alias: string, other: string, key: HostKey)
    requires IsMuted(host, left, alias, other) && IsName(other)
    ensures var l := Text([host, key.keyType, key.key]);
            && Matches(o, l, alias) && IsPlain(l) && !KeepsOthers(o, l, alias)
            && Kept(o, l, alias) == [Text([left, key.keyType, key.key])]
  {
    hide IsName, Fold, SplitOn, Without, JoinWith, IsPattern;
    var l := Text([host, key.keyType, key.key]);
    var names, kept := [alias, NOTE, other], [NOTE, other];
    assert names[0] == alias && alias in names && kept[1] == other && other in kept;
    assert OnList(host, alias);
    assert l.fields[1..] == [key.keyType, key.key];
    assert [left] + [key.keyType, key.key] == [left, key.keyType, key.key];
    assert JoinWith(Without(SplitOn(host, ','), alias), ',') == left;
    assert !StillAList(host, alias) && !Unheard(o, l, alias);
  }

  lemma MutedLineSays(o: OpenSsh, host: string, left: string, alias: string, other: string, key: HostKey, name: string)
    requires IsMuted(host, left, alias, other) && IsName(name) && Fold(name) != Fold(alias)
    ensures RecordedIn(o, [Text([host, key.keyType, key.key])], name)
         == if Fold(name) == Fold(other) then Some([key]) else Some([])
  {
    Nameless(name);
    hide IsName, SplitOn, RecordedIn, Fold, IsPattern;
    assert key == HostKey(key.keyType, key.key);
    assert [alias, NOTE, other][2] == other;
    RecordedOne(o, Text([host, key.keyType, key.key]), name);
  }

  lemma CommentSaysNothing(o: OpenSsh, l: Line, name: string)
    requires l.Text? && |l.fields| >= 1 && IsComment(l.fields[0])
    ensures RecordedIn(o, [l], name) == Some([])
  {
    RecordedOne(o, l, name);
  }

  lemma LeftIsComment(host: string, left: string, alias: string, other: string)
    requires IsMuted(host, left, alias, other)
    ensures IsComment(left)
  {
  }

  /** Two spoiled lines can make up for one another, which is why one file's fate does not
      tell whether its lines are sound. */
  lemma SpoiledLinesCanCancel(o: OpenSsh, alias: string, other: string, key: HostKey, name: string)
    requires IsName(alias) && IsName(other) && Fold(other) != Fold(alias) && Askable(name, alias)
    ensures var first, second := Muted(alias, other, key), Hollow(alias, other, key);
            && Matches(o, first, alias) && IsPlain(first) && !KeepsOthers(o, first, alias)
            && Matches(o, second, alias) && IsPlain(second)
            && RecordedIn(o, Kept(o, first, alias) + Kept(o, second, alias), name)
               == if name == alias then Some([]) else RecordedIn(o, [first, second], name)
  {
    hide AfterComment, RecordedIn, Kept, NewLine, IsHashed, IsMarker, IsPattern, Fold, IsMuted, KeepsOthers, IsWord;
    var first, second := Muted(alias, other, key), Hollow(alias, other, key);
    var host, left := alias + [','] + AfterComment(other), AfterComment(other);
    var muted := Text([left, key.keyType, key.key]);
    MutedList(alias, other);
    MutedLineIsKept(o, host, left, alias, other, key);
    HollowListSpeaksForAnother(o, alias, other, key, other);
    LeftIsComment(host, left, alias, other);
    CommentSaysNothing(o, muted, name);
    OneNameSays(o, other, key, name);
    if name != alias {
      MutedLineSays(o, host, left, alias, other, key, name);
      HollowListSpeaksForAnother(o, alias, other, key, name);
    }
    hide *;
    RecordedAppend(o, [muted], [NewLine(other, key)], name);
    RecordedAppend(o, [first], [second], name);
    assert [first, second] == [first] + [second];
    NothingMore(Some([key]));
    NothingMore(Some([]));
  }
}
