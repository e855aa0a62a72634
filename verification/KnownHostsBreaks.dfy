/** What line breaks inside a line do to a known_hosts file: without any, keeping others is a
    matter of each line's host list; with one, a comment can become an entry, and an entry can
    be taken along with another's. */
module KnownHostsBreaks {
  import opened Common
  import opened KnownHosts
  import opened KnownHostsFile
  import opened LineWords
  import opened TextLines

  /** A line both programs end at the same place: no break in it but a carriage return at its end. */
  predicate Whole(s: string) {
    BreakFree(s) || (s != "" && s[|s| - 1] == '\r' && BreakFree(s[..|s| - 1]))
  }

  function Body(s: string): string
    requires Whole(s)
  {
    if BreakFree(s) then s else s[..|s| - 1]
  }

  lemma WholeIsOnePiece(s: string)
    requires Whole(s)
    ensures Pieces(s) == NotBlank([Body(s)]) && Ssh(s) == Py(Body(s)) && (Strip(Body(s)) == "" <==> Ssh(s) == Blank)
  {
    hide Strip, Words, NotBlank;
    var body := Body(s);
    PiecesOfBreakFree(body);
    SameWords(body, SshSpace, IsSpace);
    WordsOfStrip(body);
    if !BreakFree(s) {
      assert IsBreak(s[|s| - 1]) && s[|s|..] == "";
      PiecesAtBreak(s, |s| - 1);
      PiecesOfEmpty();
      SeparatorAtEnd(s, SshSpace);
    }
  }

  /** What is kept of such a line is what is kept of its fields. */
  lemma WholeLineKept(o: OpenSsh, s: string, alias: string)
    requires Whole(s) && Replaceable(o, [s], alias)
    ensures SshAll(LineKept(o, s, alias)) == Kept(o, Ssh(s), alias)
    ensures Matches(o, Ssh(s), alias) ==> IsPlain(Ssh(s)) && Taken(o, [s], alias) == {Strip(Body(s))}
  {
    hide Strip, Words, IsPattern, IsMarker, IsHashed, Shortened, OnList, BreakFree;
    var body := Body(s);
    WholeIsOnePiece(s);
    TakenOfOne(o, s, alias);
    SshAllOne(body);
    WordsOfStrip(body);
    if Ssh(s) != Blank {
      assert NotBlank([body]) == [body];
      assert body in Pieces(s);
      PieceReads(s, body);
      if Matches(o, Ssh(s), alias) {
        NotCommented(s, body);
        assert Strip(body) in Entries(Pieces(s));
        OnlyEntry(body);
        ShortTextReads(Strip(body), alias);
      }
      KeptOne(Taken(o, [s], alias), body, alias);
    }
  }

  lemma NotCommented(s: string, p: string)
    requires p in Pieces(s) && Py(p).Text? && !IsComment(Py(p).fields[0])
    ensures !IsComment(p)
  {
    if IsComment(p) {
      CommentStarts(s, p);
    }
  }

  lemma OnlyEntry(p: string)
    requires !IsComment(p)
    ensures Entries([p]) == [Strip(p)]
  {
  }

  /** On such a line, keeping one's word is a matter of its host list. */
  lemma WholeKeepsIff(o: OpenSsh, s: string, alias: string)
    requires Whole(s) && Replaceable(o, [s], alias) && IsName(alias) && HashesAreSingle(o)
    ensures Keeps(o, s, alias) <==> KeepsOthers(o, Ssh(s), alias)
  {
    hide RecordedIn, KeepsOthers, LineKept, Kept, IsPlain, Matches, HashesAreSingle, IsName, Askable, Whole;
    WholeLineKept(o, s, alias);
    if KeepsOthers(o, Ssh(s), alias) {
      forall n | Askable(n, alias) ensures Says(o, LineKept(o, s, alias), n) == Due(o, Ssh(s), alias, n) {
        KeptSpeaks(o, Ssh(s), alias, n);
      }
    } else {
      var n := NoticedLine(o, Ssh(s), alias);
      assert Says(o, LineKept(o, s, alias), n) != Due(o, Ssh(s), alias, n);
    }
  }

  lemma WholePrintsItself(o: OpenSsh, t: string, s: string, alias: string)
    requires Whole(t) && Replaceable(o, [t], alias) && IsName(alias) && HashesAreSingle(o)
    ensures !Stray(o, t, s, alias)
  {
    hide RecordedIn, Taken, Words, IsPattern, IsMarker, IsHashed, Fold, IsName, Strip, Pieces, OnList;
    if Stray(o, t, s, alias) {
      var p, n :| p in Pieces(s) && Strip(p) in Taken(o, [t], alias) && Strip(p) !in Taken(o, [s], alias)
        && Speaks(o, Py(p), n) && IsName(n) && Fold(n) != Fold(alias)
        && RecordedIn(o, [Ssh(t)], n).Some? && RecordedIn(o, [Ssh(s)], n).Some?;
      WholeLineKept(o, t, alias);
      TakenOfOne(o, t, alias);
      WholeIsOnePiece(t);
      WordsOfStrip(Body(t));
      WordsOfStrip(p);
    }
  }

  /** Of lines without a break in them, every file is rewritten as promised if and only if each
      matched list, with the alias taken out, is still one, or is heard by nobody. */
  lemma WholeLinesIff(o: OpenSsh, lines: set<string>, alias: string, key: HostKey)
    requires IsName(alias) && IsKey(key) && HashesAreSingle(o)
    requires forall s :: s in lines ==> '\n' !in s && Whole(s) && Replaceable(o, [s], alias)
    ensures (forall text :: MadeOf(text, lines) ==>
               Replaceable(o, SplitOn(text, '\n'), alias) && ReplacesOnly(o, text, alias, key))
        <==> forall s :: s in lines ==> KeepsOthers(o, Ssh(s), alias)
  {
    hide SplitOn, ReplacesOnly, Keeps, KeepsOthers, Stray, HashesAreSingle, IsName, IsKey, Whole, Replaceable;
    WriteReplacesOneAliasIff(o, lines, alias, key);
    forall s | s in lines ensures Keeps(o, s, alias) <==> KeepsOthers(o, Ssh(s), alias) {
      WholeKeepsIff(o, s, alias);
    }
    forall t, s | t in lines && s in lines ensures !Stray(o, t, s, alias) {
      WholePrintsItself(o, t, s, alias);
    }
  }

  lemma {:induction false} ListedAppend(a: seq<string>, b: seq<string>)
    ensures Listed(a + b) == Both(Listed(a), Listed(b))
    decreases |b|
  {
    hide IsMarker, IsPattern, IsHashed, Py;
    if b == [] {
      assert a + b == a;
      BothNothing(Listed(a));
    } else {
      var front, last := b[..|b| - 1], b[|b| - 1];
      ListedAppend(a, front);
      assert (a + b)[..|a + b| - 1] == a + front && (a + b)[|a + b| - 1] == last;
      if Listed(a).Some? && Listed(front).Some? && IsPlain(Py(last)) {
        var entry := [HostKey(Py(last).fields[1], Py(last).fields[2])];
        assert (Listed(a).value + Listed(front).value) + entry == Listed(a).value + (Listed(front).value + entry);
      }
    }
  }

  lemma ListedOne(q: string)
    ensures Listed([q]) == if IsPlain(Py(q)) then Some([HostKey(Py(q).fields[1], Py(q).fields[2])]) else None
    ensures Listed([]) == Some([])
  {
    hide IsMarker, IsPattern, IsHashed, Py;
    assert [q][..0] == [] && [q][0] == q;
    if IsPlain(Py(q)) {
      assert [] + [HostKey(Py(q).fields[1], Py(q).fields[2])] == [HostKey(Py(q).fields[1], Py(q).fields[2])];
    }
  }

  /** Of lines without a break in them, the code lists what OpenSSH trusts. */
  lemma {:induction false} ListedIsTrusted(o: OpenSsh, lines: seq<string>, name: string)
    requires forall s :: s in lines ==> Whole(s)
    ensures Listed(Printed(o, lines, name)) == RecordedIn(o, SshAll(lines), name)
  {
    hide RecordedIn, Whole, Matches, Ssh, Entries, Pieces;
    if lines == [] {
      ListedOne("");
      RecordedOne(o, Blank, name);
    } else {
      var s, rest := lines[0], lines[1..];
      assert forall x :: x in rest ==> x in lines;
      ListedIsTrusted(o, rest, name);
      WholeIsListed(o, s, name);
      ListedAppend(if Matches(o, Ssh(s), name) then Entries(Pieces(s)) else [], Printed(o, rest, name));
      RecordedAppend(o, [Ssh(s)], SshAll(rest), name);
    }
  }

  lemma WholeIsListed(o: OpenSsh, s: string, name: string)
    requires Whole(s)
    ensures Listed(if Matches(o, Ssh(s), name) then Entries(Pieces(s)) else []) == RecordedIn(o, [Ssh(s)], name)
  {
    hide RecordedIn, Strip, Words, IsPattern, IsMarker, IsHashed, OnList, BreakFree, Listed;
    var body := Body(s);
    WholeIsOnePiece(s);
    WordsOfStrip(body);
    RecordedOne(o, Ssh(s), name);
    ListedOne(Strip(body));
    if Matches(o, Ssh(s), name) {
      OneNotBlank(body);
      NotCommented(s, body);
      OnlyEntry(body);
    }
  }

  // ---------------------------------------------------------------- lines with a break in them

  /** An entry and the rest of its line. */
  function Entry(host: string, key: HostKey, rest: string): string {
    host + [' '] + (key.keyType + [' '] + (key.key + [' '] + rest))
  }

  /** An entry with a comment, then a line break that does not end the line, then more. */
  function Broken(host: string, key: HostKey, note: string, mark: char, more: string): string {
    Entry(host, key, note + ([mark] + more))
  }

  lemma WordThen(w: string, rest: string, sep: Separator)
    requires IsWord(w, sep) && sep(' ')
    ensures Words(w + [' '] + rest, sep) == [w] + Words(rest, sep)
  {
    FirstWord(w, [' '] + rest, sep);
    assert ([' '] + rest)[1..] == rest && w + ([' '] + rest) == w + [' '] + rest;
  }

  lemma EntryWords(host: string, key: HostKey, rest: string, sep: Separator)
    requires IsWord(host, sep) && IsWord(key.keyType, sep) && IsWord(key.key, sep) && sep(' ')
    ensures Words(Entry(host, key, rest), sep) == [host, key.keyType, key.key] + Words(rest, sep)
  {
    hide Words, IsWord;
    WordThen(key.key, rest, sep);
    WordThen(key.keyType, key.key + [' '] + rest, sep);
    WordThen(host, key.keyType + [' '] + (key.key + [' '] + rest), sep);
  }

  /** The line starts with the entry's three words, for either program. */
  lemma EntryReads(host: string, key: HostKey, rest: string)
    requires IsWord(host, IsSpace) && IsKey(key)
    ensures var ssh, py := Ssh(Entry(host, key, rest)), Py(Entry(host, key, rest));
            && ssh.Text? && |ssh.fields| >= 3 && ssh.fields[..3] == [host, key.keyType, key.key]
            && py.Text? && |py.fields| >= 3 && py.fields[..3] == [host, key.keyType, key.key]
  {
    EntryWords(host, key, rest, IsSpace);
    EntryWords(host, key, rest, SshSpace);
  }

  lemma EntryIsNotBlank(host: string, key: HostKey, rest: string)
    requires IsWord(host, IsSpace) && IsKey(key)
    ensures Strip(Entry(host, key, rest)) != ""
  {
    hide Strip, Words, Entry;
    EntryReads(host, key, rest);
    WordsOfStrip(Entry(host, key, rest));
  }

  lemma EntryCuts(host: string, key: HostKey, note: string, rest: string)
    ensures Entry(host, key, note + rest) == Entry(host, key, note) + rest
  {
    assert key.key + [' '] + (note + rest) == (key.key + [' '] + note) + rest;
    assert key.keyType + [' '] + ((key.key + [' '] + note) + rest)
        == (key.keyType + [' '] + (key.key + [' '] + note)) + rest;
  }

  lemma EntryIsBreakFree(host: string, key: HostKey, note: string)
    requires IsWord(host, IsSpace) && IsKey(key) && BreakFree(note)
    ensures BreakFree(Entry(host, key, note))
  {
    WordIsBreakFree(host);
    WordIsBreakFree(key.keyType);
    WordIsBreakFree(key.key);
    SpacedIsBreakFree(key.key, note);
    SpacedIsBreakFree(key.keyType, key.key + [' '] + note);
    SpacedIsBreakFree(host, key.keyType + [' '] + (key.key + [' '] + note));
  }

  lemma WordIsBreakFree(w: string)
    requires IsWord(w, IsSpace)
    ensures BreakFree(w)
  {
  }

  lemma SpacedIsBreakFree(a: string, b: string)
    requires BreakFree(a) && BreakFree(b)
    ensures BreakFree(a + [' '] + b)
  {
    var s := a + [' '] + b;
    assert forall i :: 0 <= i < |s| ==> s[i] == if i < |a| then a[i] else if i == |a| then ' ' else b[i - |a| - 1];
  }

  lemma OneNotBlank(line: string)
    requires Strip(line) != ""
    ensures NotBlank([line]) == [line]
  {
  }

  /** Two break-free parts with a break between them. */
  lemma CutInTwo(first: string, mark: char, more: string)
    requires BreakFree(first) && BreakFree(more) && Strip(first) != "" && Strip(more) != ""
    requires IsBreak(mark) && mark != '\n'
    ensures Pieces(first + ([mark] + more)) == [first, more] && '\n' !in first + ([mark] + more)
  {
    var s := first + ([mark] + more);
    AroundMark(first, mark, more);
    OneNotBlank(first);
    OneNotBlank(more);
    hide *;
    PiecesAtBreak(s, |first|);
    PiecesOfBreakFree(more);
  }

  lemma AroundMark(first: string, mark: char, more: string)
    requires BreakFree(first) && BreakFree(more) && IsBreak(mark) && mark != '\n'
    ensures var s := first + ([mark] + more);
            && s[..|first|] == first && s[|first|] == mark && s[|first| + 1..] == more
            && (|first| + 1 < |s| ==> s[|first| + 1] != '\n') && '\n' !in s
  {
    var s := first + ([mark] + more);
    forall i | 0 <= i < |s| ensures s[i] != '\n' {
      assert s[i] == if i < |first| then first[i] else if i == |first| then mark else more[i - |first| - 1];
    }
  }

  lemma BrokenReads(host: string, key: HostKey, note: string, mark: char, more: string)
    requires IsWord(host, IsSpace) && IsKey(key) && BreakFree(note) && BreakFree(more) && Strip(more) != ""
    requires IsBreak(mark) && mark != '\n'
    ensures Pieces(Broken(host, key, note, mark, more)) == [Entry(host, key, note), more]
    ensures '\n' !in Broken(host, key, note, mark, more)
  {
    hide Words, Strip, Pieces, Entry;
    EntryCuts(host, key, note, [mark] + more);
    EntryIsBreakFree(host, key, note);
    EntryIsNotBlank(host, key, note);
    CutInTwo(Entry(host, key, note), mark, more);
  }

  /** A line that starts with one name and its key. */
  ghost predicate StartsWith(l: Line, host: string, key: HostKey) {
    l.Text? && |l.fields| >= 3 && l.fields[..3] == [host, key.keyType, key.key]
  }

  lemma FirstFields(l: Line, host: string, key: HostKey)
    requires StartsWith(l, host, key)
    ensures l.fields[0] == host && HostKey(l.fields[1], l.fields[2]) == key
  {
    assert l.fields[..3][0] == l.fields[0] && l.fields[..3][1] == l.fields[1] && l.fields[..3][2] == l.fields[2];
  }

  lemma EntrySays(o: OpenSsh, l: Line, host: string, key: HostKey, name: string)
    requires StartsWith(l, host, key) && IsName(host) && IsName(name)
    ensures IsPlain(l) && (Matches(o, l, name) <==> Fold(name) == Fold(host))
    ensures RecordedIn(o, [l], name) == if Fold(name) == Fold(host) then Some([key]) else Some([])
  {
    hide RecordedIn, IsWord, Fold;
    FirstFields(l, host, key);
    SplitOfOne(host, ',');
    RecordedOne(o, l, name);
    assert host in [host];
  }

  /** A comment on a line that has nothing to do with the alias holds a line break and an entry:
      before, OpenSSH sees a comment; after the write it trusts whoever the entry names. */
  lemma CommentBecomesALine(
      o: OpenSsh, alias: string, other: string, victim: string, key: HostKey, theirs: HostKey, stolen: HostKey,
      note: string, mark: char)
    requires IsName(alias) && IsName(other) && IsName(victim) && IsKey(key) && IsKey(theirs) && IsKey(stolen)
    requires Fold(other) != Fold(alias) && Fold(victim) != Fold(alias) && Fold(victim) != Fold(other)
    requires BreakFree(note) && IsBreak(mark) && mark != '\n'
    ensures var text := WriteLines([Broken(other, theirs, note, mark, Entry(victim, stolen, ""))]);
            && Printed(o, SplitOn(text, '\n'), alias) == [] && Replaceable(o, SplitOn(text, '\n'), alias)
            && Trust(o, text, victim) == Some([]) && Trust(o, Replaced(o, text, alias, key), victim) == Some([stolen])
  {
    hide Words, Entry, IsPattern, IsWord, Fold, WriteLines, SplitOn, Strip, RecordedIn, Pieces, SplitLines, KeptPieces,
      Replaced, IsKey, IsName, Ssh, Py, Matches, AllPieces;
    var more := Entry(victim, stolen, "");
    var first, s := Entry(other, theirs, note), Broken(other, theirs, note, mark, more);
    NamesAreWords(other, victim);
    EntryIsBreakFree(victim, stolen, "");
    EntryReads(victim, stolen, "");
    EntryReads(other, theirs, note);
    EntryReads(other, theirs, note + ([mark] + more));
    EntryIsNotBlank(victim, stolen, "");
    BrokenReads(other, theirs, note, mark, more);
    OneLineFile(s);
    EntrySays(o, Ssh(s), other, theirs, alias);
    EntrySays(o, Ssh(s), other, theirs, victim);
    EntrySays(o, Ssh(first), other, theirs, victim);
    EntrySays(o, Ssh(more), victim, stolen, victim);
    NothingPrinted(o, s, alias);
    LinesOfTwo(o, s, s, victim);
    AfterSays(o, WriteLines([s]), alias, key, victim);
    PiecesOfTwo(s, s);
    TwoKept(o, first, more, alias, victim);
    BothNothing(Some([stolen]));
  }

  lemma NamesAreWords(a: string, b: string)
    requires IsName(a) && IsName(b)
    ensures IsWord(a, IsSpace) && IsWord(b, IsSpace) && !IsComment(a)
  {
  }

  lemma NothingPrinted(o: OpenSsh, s: string, alias: string)
    requires !Matches(o, Ssh(s), alias)
    ensures Printed(o, [s, ""], alias) == [] && Taken(o, [s, ""], alias) == {}
  {
    hide Matches, Ssh, Entries;
    assert [s, ""][1..] == [""] && [""][1..] == [];
    EmptyLine(o, alias);
    assert Printed(o, [""], alias) == [] by {
      assert !Matches(o, Blank, alias) by {
        BlankIsNobodys(o, alias);
      }
    }
  }

  lemma BlankIsNobodys(o: OpenSsh, alias: string)
    ensures !Matches(o, Blank, alias)
  {
  }

  lemma TwoKept(o: OpenSsh, a: string, b: string, alias: string, name: string)
    ensures Says(o, KeptPieces({}, [a, b], alias), name)
         == Both(RecordedIn(o, [Ssh(a)], name), RecordedIn(o, [Ssh(b)], name))
  {
    hide RecordedIn, Ssh;
    KeptOne({}, a, alias);
    KeptOne({}, b, alias);
    KeptAppend({}, [a], [b], alias);
    assert [a] + [b] == [a, b];
    SshAllOne(a);
    SshAllOne(b);
    SaysAppend(o, [a], [b], name);
  }

  /** Of an entry with a break in its comment, on a line that is not the alias's: it keeps what it
      says exactly when what comes after the break speaks for nobody. */
  lemma CommentKeepsIff(
      o: OpenSsh, alias: string, other: string, theirs: HostKey, note: string, mark: char, more: string)
    requires IsName(alias) && IsName(other) && IsKey(theirs) && Fold(other) != Fold(alias)
    requires BreakFree(note) && BreakFree(more) && Strip(more) != "" && IsBreak(mark) && mark != '\n'
    ensures Taken(o, [Broken(other, theirs, note, mark, more)], alias) == {}
    ensures Keeps(o, Broken(other, theirs, note, mark, more), alias)
        <==> forall n :: Askable(n, alias) ==> !Matches(o, Ssh(more), n)
  {
    hide Words, Entry, Broken, IsPattern, IsWord, Fold, Strip, RecordedIn, Pieces, KeptPieces, IsKey, IsName, Ssh, Py,
      Matches;
    var s, first := Broken(other, theirs, note, mark, more), Entry(other, theirs, note);
    NamesAreWords(other, other);
    EntryReads(other, theirs, note);
    BrokenStarts(other, theirs, note, mark, more);
    BrokenReads(other, theirs, note, mark, more);
    EntrySays(o, Ssh(s), other, theirs, alias);
    TakenOfOne(o, s, alias);
    assert Taken(o, [s], alias) == {};
    assert LineKept(o, s, alias) == KeptPieces({}, [first, more], alias);
    forall n | Askable(n, alias)
      ensures Says(o, LineKept(o, s, alias), n) == Due(o, Ssh(s), alias, n) <==> !Matches(o, Ssh(more), n)
    {
      AskableIsName(n, alias);
      EntrySays(o, Ssh(s), other, theirs, n);
      EntrySays(o, Ssh(first), other, theirs, n);
      TwoKept(o, first, more, alias, n);
      SpeaksOrNot(o, Ssh(more), n);
      NothingAfter(RecordedIn(o, [Ssh(first)], n), RecordedIn(o, [Ssh(more)], n));
    }
  }

  lemma BrokenStarts(host: string, key: HostKey, note: string, mark: char, more: string)
    requires IsWord(host, IsSpace) && IsKey(key)
    ensures StartsWith(Ssh(Broken(host, key, note, mark, more)), host, key)
  {
    EntryReads(host, key, note + ([mark] + more));
  }

  lemma AskableIsName(name: string, alias: string)
    requires Askable(name, alias)
    ensures IsName(name)
  {
  }

  lemma SpeaksOrNot(o: OpenSsh, l: Line, name: string)
    ensures RecordedIn(o, [l], name) == Some([]) <==> !Matches(o, l, name)
  {
    RecordedOne(o, l, name);
  }

  lemma NothingAfter(a: Option<seq<HostKey>>, b: Option<seq<HostKey>>)
    requires a.Some?
    ensures Both(a, b) == a <==> b == Some([])
  {
    BothNothing(a);
    if Both(a, b) == a {
      assert |a.value + b.value| == |a.value|;
    }
  }

  lemma HashSays(o: OpenSsh, l: Line, hash: string, key: HostKey, name: string)
    requires StartsWith(l, hash, key) && IsHashed(hash)
    ensures IsPlain(l) && (Matches(o, l, name) <==> o.hashed(hash, name)) && !IsComment(l.fields[0])
    ensures RecordedIn(o, [l], name) == if o.hashed(hash, name) then Some([key]) else Some([])
  {
    hide RecordedIn;
    FirstFields(l, hash, key);
    RecordedOne(o, l, name);
  }

  /** A piece that lists the alias alone, or a hash, goes when it is taken. */
  lemma GoesAway(taken: set<string>, line: string, p: string, host: string, key: HostKey, alias: string)
    requires AllPlain(taken) && p in Pieces(line) && Strip(p) in taken && StartsWith(Py(p), host, key)
    requires IsHashed(host) || (host == alias && IsName(alias))
    ensures KeptPiece(taken, p, alias) == []
  {
    hide Words, Strip, Pieces, IsPattern, IsWord, Fold;
    PieceReads(line, p);
    FirstFields(Py(p), host, key);
    if !IsHashed(host) {
      SplitOfOne(alias, ',');
      WithoutCons(alias, [], alias);
      assert [alias] + [] == [alias];
    }
  }

  lemma AllGo(taken: set<string>, a: string, b: string, alias: string)
    requires AllPlain(taken) && KeptPiece(taken, a, alias) == [] && KeptPiece(taken, b, alias) == []
    ensures KeptPieces(taken, [a, b] + [b], alias) == []
  {
    hide KeptPiece, IsPlain;
    KeptOne(taken, a, alias);
    KeptOne(taken, b, alias);
    KeptAppend(taken, [a], [b], alias);
    KeptAppend(taken, [a, b], [b], alias);
    assert [a] + [b] == [a, b];
  }

  lemma BothArePrinted(o: OpenSsh, t: string, first: string, entry: string, alias: string)
    requires Pieces(t) == [first, entry] && Pieces(entry) == [entry]
    requires Matches(o, Ssh(t), alias) && !Matches(o, Ssh(entry), alias)
    requires !IsComment(first) && !IsComment(entry) && IsPlain(Py(first)) && IsPlain(Py(entry))
    ensures Taken(o, [t, entry, ""], alias) == {Strip(first), Strip(entry)}
    ensures AllPlain({Strip(first), Strip(entry)})
  {
    hide Words, Strip, Pieces, IsPlain, Matches, Taken;
    TakenOfTwo(o, t, entry, alias);
    TakenOfOne(o, t, alias);
    TakenOfOne(o, entry, alias);
    assert [first, entry][0] == first && [first, entry][1] == entry;
    PieceReads(t, first);
    PieceReads(t, entry);
    assert forall q :: q in Entries([first, entry]) <==> q in {Strip(first), Strip(entry)};
  }

  /** An entry of the alias's with another name's hashed entry after a break: OpenSSH prints both,
      and where the file holds that entry on a line of its own, its owner loses the key. */
  lemma HashIsTakenAlong(
      o: OpenSsh, alias: string, hash: string, victim: string, key: HostKey, was: HostKey, theirs: HostKey,
      note: string, mark: char)
    requires IsName(alias) && IsName(victim) && Fold(victim) != Fold(alias)
    requires IsWord(hash, IsSpace) && IsHashed(hash) && o.hashed(hash, victim) && !o.hashed(hash, alias)
    requires IsKey(key) && IsKey(was) && IsKey(theirs) && BreakFree(note) && IsBreak(mark) && mark != '\n'
    ensures var entry := Entry(hash, theirs, "");
            var text := WriteLines([Broken(alias, was, note, mark, entry), entry]);
            && Replaceable(o, SplitOn(text, '\n'), alias)
            && Trust(o, text, victim) == Some([theirs]) && Trust(o, Replaced(o, text, alias, key), victim) == Some([])
  {
    hide Words, Entry, IsPattern, IsWord, Fold, WriteLines, SplitOn, Strip, RecordedIn, Pieces, SplitLines, KeptPieces,
      Replaced, IsKey, IsName, Ssh, Py, Matches, AllPieces, Taken, IsPlain, Says, Shortened;
    var entry := Entry(hash, theirs, "");
    var first, t := Entry(alias, was, note), Broken(alias, was, note, mark, entry);
    NamesAreWords(alias, victim);
    EntryIsBreakFree(hash, theirs, "");
    EntryReads(hash, theirs, "");
    EntryReads(alias, was, note);
    EntryReads(alias, was, note + ([mark] + entry));
    EntryIsNotBlank(hash, theirs, "");
    BrokenReads(alias, was, note, mark, entry);
    NewlinesOfWritten([t, entry]);
    assert [t, entry] + [""] == [t, entry, ""];
    EntrySays(o, Ssh(t), alias, was, alias);
    EntrySays(o, Ssh(t), alias, was, victim);
    HashSays(o, Ssh(entry), hash, theirs, alias);
    HashSays(o, Ssh(entry), hash, theirs, victim);
    LinesOfTwo(o, t, entry, victim);
    BothNothing(Some([theirs]));
    var taken := {Strip(first), Strip(entry)};
    PiecesOfBreakFree(entry);
    OneNotBlank(entry);
    EntrySays(o, Py(first), alias, was, alias);
    HashSays(o, Py(entry), hash, theirs, alias);
    FirstFields(Py(first), alias, was);
    assert [first, entry][0] == first && [first, entry][1] == entry;
    NotCommented(t, first);
    NotCommented(t, entry);
    BothArePrinted(o, t, first, entry, alias);
    PiecesOfTwo(t, entry);
    AfterSays(o, WriteLines([t, entry]), alias, key, victim);
    GoesAway(taken, t, first, alias, was, alias);
    GoesAway(taken, t, entry, hash, theirs, alias);
    AllGo(taken, first, entry, alias);
    SaysAppend(o, [], [], victim);
  }
}
