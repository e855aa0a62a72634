/** The known_hosts file a profile owns, as text: OpenSSH reads it line by line and answers which
    lines speak for a name, and the code cuts both the file and that answer at every line break. */
module KnownHostsFile {
  import opened Common
  import opened KnownHosts
  import opened LineWords
  import opened TextLines

  function LineOf(words: seq<string>): Line {
    if words == [] then Blank else Text(words)
  }

  /** A line as OpenSSH reads it. */
  function Ssh(s: string): Line { LineOf(Words(s, SshSpace)) }

  /** A piece of text as the code reads it. */
  function Py(s: string): Line { LineOf(Words(s, IsSpace)) }

  function SshAll(lines: seq<string>): seq<Line> {
    if lines == [] then [] else [Ssh(lines[0])] + SshAll(lines[1..])
  }

  /** Every key OpenSSH finds under a name, in file order; nothing when it meets a policy. */
  function Trust(o: OpenSsh, text: string, name: string): Option<seq<HostKey>> {
    RecordedIn(o, SshAll(SplitOn(text, '\n')), name)
  }

  // ---------------------------------------------------------------- what OpenSSH prints

  /** The printed pieces the code looks at, trimmed. */
  function Entries(pieces: seq<string>): (r: seq<string>)
    ensures forall q :: q in r <==> exists p :: p in pieces && !IsComment(p) && Strip(p) == q
  {
    if pieces == [] then []
    else
      var rest := Entries(pieces[1..]);
      assert forall p :: p in pieces <==> p == pieces[0] || p in pieces[1..];
      (if IsComment(pieces[0]) then [] else [Strip(pieces[0])]) + rest
  }

  function Printed(o: OpenSsh, lines: seq<string>, name: string): seq<string> {
    if lines == [] then []
    else (if Matches(o, Ssh(lines[0]), name) then Entries(Pieces(lines[0])) else []) + Printed(o, lines[1..], name)
  }

  function Taken(o: OpenSsh, lines: seq<string>, alias: string): set<string> {
    set q | q in Printed(o, lines, alias)
  }

  predicate AllPlain(taken: set<string>) {
    forall q :: q in taken ==> IsPlain(Py(q))
  }

  /** An entry whose key is not one host's to replace: too short for a key, a marker, or a pattern
      that speaks for other names. */
  ghost predicate IsPolicy(entry: string) {
    var words := Words(entry, IsSpace);
    || |words| < 3 || "@" <= words[0]
    || (!("|1|" <= words[0]) && ('*' in words[0] || '?' in words[0] || '!' in words[0]))
  }

  lemma PolicyIff(entry: string)
    ensures IsPolicy(entry) <==> !IsPlain(Py(entry))
  {
    hide Words;
    var words := Words(entry, IsSpace);
    assert words != [] ==> ("@" <= words[0] <==> IsMarker(words[0]));
  }

  lemma {:induction false} ListedIff(entries: seq<string>)
    ensures Listed(entries).None? <==> exists q :: q in entries && IsPolicy(q)
  {
    hide IsPolicy, IsPlain;
    if entries != [] {
      var front, last := entries[..|entries| - 1], entries[|entries| - 1];
      ListedIff(front);
      PolicyIff(last);
      assert forall q :: q in entries <==> q in front || q == last;
    }
  }

  /** The keys of printed entries, refusing one that is not plain. */
  function Listed(entries: seq<string>): Option<seq<HostKey>> {
    if entries == [] then Some([])
    else
      var front, last := Listed(entries[..|entries| - 1]), Py(entries[|entries| - 1]);
      if front.None? || !IsPlain(last) then None
      else Some(front.value + [HostKey(last.fields[1], last.fields[2])])
  }

  method Recorded(o: OpenSsh, text: string, name: string) returns (r: Option<seq<HostKey>>)
    ensures r == Listed(Printed(o, SplitOn(text, '\n'), name))
    ensures r.None? <==> exists q :: q in Printed(o, SplitOn(text, '\n'), name) && IsPolicy(q)
  {
    ListedIff(Printed(o, SplitOn(text, '\n'), name));
    hide IsPolicy;
    var printed, entries := Printed(o, SplitOn(text, '\n'), name), [];
    for i := 0 to |printed|
      invariant Listed(printed[..i]) == Some(entries)
    {
      assert printed[..i + 1][..i] == printed[..i];
      var fields := Words(printed[i], IsSpace);
      if fields == [] || !IsPlain(Text(fields)) {
        ListedStops(printed, i + 1);
        return None;
      }
      entries := entries + [HostKey(fields[1], fields[2])];
    }
    assert printed[..|printed|] == printed;
    return Some(entries);
  }

  lemma {:induction false} ListedStops(entries: seq<string>, i: nat)
    requires i <= |entries| && Listed(entries[..i]).None?
    ensures Listed(entries).None?
    decreases |entries|
  {
    if i < |entries| {
      assert entries[..|entries| - 1][..i] == entries[..i];
      ListedStops(entries[..|entries| - 1], i);
    } else {
      assert entries[..i] == entries;
    }
  }

  // ---------------------------------------------------------------- the rewrite

  /** An entry without the alias, as it is written. */
  function ShortText(entry: string, alias: string): seq<string>
    requires IsPlain(Py(entry))
  {
    var fields := Words(entry, IsSpace);
    if IsHashed(fields[0]) then []
    else
      var remaining := Without(SplitOn(fields[0], ','), alias);
      if remaining == [] then [] else [JoinWith([JoinWith(remaining, ',')] + fields[1..], ' ')]
  }

  function KeptPiece(taken: set<string>, raw: string, alias: string): seq<string>
    requires AllPlain(taken)
  {
    if Strip(raw) in taken then ShortText(Strip(raw), alias) else [raw]
  }

  function KeptPieces(taken: set<string>, pieces: seq<string>, alias: string): seq<string>
    requires AllPlain(taken)
  {
    if pieces == [] then [] else KeptPiece(taken, pieces[0], alias) + KeptPieces(taken, pieces[1..], alias)
  }

  function NewText(alias: string, key: HostKey): string {
    JoinWith([alias, key.keyType, key.key], ' ')
  }

  predicate Replaceable(o: OpenSsh, lines: seq<string>, alias: string) {
    AllPlain(Taken(o, lines, alias))
  }

  lemma ReplaceableIff(o: OpenSsh, lines: seq<string>, alias: string)
    ensures Replaceable(o, lines, alias) <==> !exists q :: q in Printed(o, lines, alias) && IsPolicy(q)
  {
    hide IsPolicy, IsPlain, Printed;
    forall q | q in Printed(o, lines, alias) ensures IsPolicy(q) <==> !IsPlain(Py(q)) {
      PolicyIff(q);
    }
  }

  /** The file after the alias got this key. */
  function Replaced(o: OpenSsh, text: string, alias: string, key: HostKey): string
    requires Replaceable(o, SplitOn(text, '\n'), alias)
  {
    var taken := Taken(o, SplitOn(text, '\n'), alias);
    WriteLines(KeptPieces(taken, NotBlank(SplitLines(text)), alias) + [NewText(alias, key)])
  }

  method Write(o: OpenSsh, text: string, alias: string, key: HostKey) returns (r: Option<string>)
    ensures r.Some? <==> Replaceable(o, SplitOn(text, '\n'), alias)
    ensures r.None? <==> exists q :: q in Printed(o, SplitOn(text, '\n'), alias) && IsPolicy(q)
    ensures r.Some? ==> r.value == Replaced(o, text, alias, key)
  {
    ReplaceableIff(o, SplitOn(text, '\n'), alias);
    hide IsPolicy, Printed, SplitLines, SplitOn, Strip, Words, Taken, JoinWith, NotBlank, KeptPieces, Without,
      IsPattern, IsMarker, IsHashed, WriteLines, NewText;
    var taken := Taken(o, SplitOn(text, '\n'), alias);
    if exists q :: q in taken && !IsPlain(Py(q)) {
      return None;
    }
    var raws, kept := SplitLines(text), [];
    KeptNothing(taken, alias);
    for i := 0 to |raws|
      invariant kept == KeptPieces(taken, NotBlank(raws[..i]), alias)
    {
      KeptNext(taken, raws, i, alias);
      var line := Strip(raws[i]);
      if line == "" {
        continue;
      }
      if line !in taken {
        kept := kept + [raws[i]];
        continue;
      }
      var fields := Words(line, IsSpace);
      if !IsHashed(fields[0]) {
        var remaining := Without(SplitOn(fields[0], ','), alias);
        if remaining != [] {
          kept := kept + [JoinWith([JoinWith(remaining, ',')] + fields[1..], ' ')];
        }
      }
    }
    assert raws[..|raws|] == raws;
    return Some(WriteLines(kept + [NewText(alias, key)]));
  }

  lemma KeptNothing(taken: set<string>, alias: string)
    requires AllPlain(taken)
    ensures KeptPieces(taken, NotBlank([]), alias) == []
  {
  }

  lemma KeptNext(taken: set<string>, raws: seq<string>, i: nat, alias: string)
    requires AllPlain(taken) && i < |raws|
    ensures KeptPieces(taken, NotBlank(raws[..i + 1]), alias)
         == KeptPieces(taken, NotBlank(raws[..i]), alias)
            + if Strip(raws[i]) == "" then [] else KeptPiece(taken, raws[i], alias)
  {
    hide KeptPieces, NotBlank, Strip, IsPlain, KeptPiece;
    assert raws[..i + 1] == raws[..i] + [raws[i]];
    NotBlankAppend(raws[..i], [raws[i]]);
    KeptAppend(taken, NotBlank(raws[..i]), NotBlank([raws[i]]), alias);
    KeptOne(taken, raws[i], alias);
  }

  lemma KeptOne(taken: set<string>, raw: string, alias: string)
    requires AllPlain(taken)
    ensures KeptPieces(taken, NotBlank([raw]), alias) == if Strip(raw) == "" then [] else KeptPiece(taken, raw, alias)
    ensures KeptPieces(taken, [raw], alias) == KeptPiece(taken, raw, alias)
  {
    assert [raw][1..] == [];
  }

  lemma KeptCons(taken: set<string>, p: string, rest: seq<string>, alias: string)
    requires AllPlain(taken)
    ensures KeptPieces(taken, [p] + rest, alias) == KeptPiece(taken, p, alias) + KeptPieces(taken, rest, alias)
  {
    hide KeptPiece;
    assert ([p] + rest)[1..] == rest;
  }

  lemma {:induction false} KeptAppend(taken: set<string>, a: seq<string>, b: seq<string>, alias: string)
    requires AllPlain(taken)
    ensures KeptPieces(taken, a + b, alias) == KeptPieces(taken, a, alias) + KeptPieces(taken, b, alias)
  {
    hide KeptPiece;
    if a == [] {
      assert a + b == b;
    } else {
      KeptAppend(taken, a[1..], b, alias);
      KeptFirst(taken, a, b, alias);
    }
  }

  lemma KeptFirst(taken: set<string>, a: seq<string>, b: seq<string>, alias: string)
    requires AllPlain(taken) && a != []
    requires KeptPieces(taken, a[1..] + b, alias) == KeptPieces(taken, a[1..], alias) + KeptPieces(taken, b, alias)
    ensures KeptPieces(taken, a + b, alias) == KeptPieces(taken, a, alias) + KeptPieces(taken, b, alias)
  {
    hide *;
    var first, rest := a[0], a[1..];
    KeptCons(taken, first, rest, alias);
    KeptCons(taken, first, rest + b, alias);
    assert [first] + rest == a;
    assert [first] + (rest + b) == a + b;
  }

  // ---------------------------------------------------------------- pieces as lines

  lemma PieceReads(line: string, p: string)
    requires p in Pieces(line)
    ensures BreakFree(p) && Ssh(p) == Py(p) == Py(Strip(p)) && Py(p).Text?
  {
    SplitIsBreakFree(line);
    NotBlankHolds(SplitLines(line));
    SameWords(p, SshSpace, IsSpace);
    WordsOfStrip(p);
  }

  lemma SshAllCons(s: string, rest: seq<string>)
    ensures SshAll([s] + rest) == [Ssh(s)] + SshAll(rest)
  {
    assert ([s] + rest)[1..] == rest;
  }

  lemma {:induction false} SshAllAppend(a: seq<string>, b: seq<string>)
    ensures SshAll(a + b) == SshAll(a) + SshAll(b)
  {
    if a == [] {
      assert a + b == b;
    } else {
      SshAllAppend(a[1..], b);
      SshAllFirst(a, b);
    }
  }

  lemma SshAllFirst(a: seq<string>, b: seq<string>)
    requires a != [] && SshAll(a[1..] + b) == SshAll(a[1..]) + SshAll(b)
    ensures SshAll(a + b) == SshAll(a) + SshAll(b)
  {
    hide *;
    var first, rest := a[0], a[1..];
    SshAllCons(first, rest);
    SshAllCons(first, rest + b);
    assert [first] + rest == a;
    assert [first] + (rest + b) == a + b;
  }

  lemma SshAllOne(s: string)
    ensures SshAll([s]) == [Ssh(s)] && SshAll([]) == []
  {
    assert [s][1..] == [];
  }

  /** The entry that is written is the line with the alias off its list. */
  lemma ShortTextReads(entry: string, alias: string)
    requires IsPlain(Py(entry))
    ensures SshAll(ShortText(entry, alias)) == Shortened(Py(entry), alias)
    ensures forall t :: t in ShortText(entry, alias) ==> '\n' !in t
  {
    var fields := Words(entry, IsSpace);
    if !IsHashed(fields[0]) {
      var remaining := Without(SplitOn(fields[0], ','), alias);
      if remaining != [] {
        ShortWords(fields, remaining, entry);
        SshAllOne(JoinWith([JoinWith(remaining, ',')] + fields[1..], ' '));
      }
    }
  }

  lemma ShortWords(fields: seq<string>, remaining: seq<string>, entry: string)
    requires fields == Words(entry, IsSpace) && |fields| >= 3 && remaining != []
    requires forall n :: n in remaining ==> n in SplitOn(fields[0], ',')
    ensures var text := JoinWith([JoinWith(remaining, ',')] + fields[1..], ' ');
            && Ssh(text) == Rewritten(JoinWith(remaining, ','), fields[1..])
            && '\n' !in text
  {
    hide SplitOn, JoinWith, Words;
    var left, rest := JoinWith(remaining, ','), fields[1..];
    WordsAreWords(entry, IsSpace);
    LeftIsSpaceFree(fields[0], remaining);
    assert forall f :: f in rest ==> f in fields;
    JoinedCharacters([left] + rest, ' ');
    if left == "" {
      JoinEmpty(rest);
      WordsOfJoin(rest, ' ', SshSpace);
      SpaceFirst(JoinWith(rest, ' '));
    } else {
      WordsOfJoin([left] + rest, ' ', SshSpace);
    }
  }

  lemma JoinEmpty(rest: seq<string>)
    requires rest != []
    ensures JoinWith([""] + rest, ' ') == [' '] + JoinWith(rest, ' ')
  {
    assert ([""] + rest)[1..] == rest;
  }

  lemma SpaceFirst(s: string)
    ensures Words([' '] + s, SshSpace) == Words(s, SshSpace)
  {
    assert ([' '] + s)[1..] == s;
  }

  lemma LeftIsSpaceFree(host: string, remaining: seq<string>)
    requires IsWord(host, IsSpace) && remaining != [] && forall n :: n in remaining ==> n in SplitOn(host, ',')
    ensures forall i :: 0 <= i < |JoinWith(remaining, ',')| ==> !IsSpace(JoinWith(remaining, ',')[i])
  {
    hide SplitOn, JoinWith;
    var left := JoinWith(remaining, ',');
    SplitParts(host, ',');
    JoinedCharacters(remaining, ',');
    forall i | 0 <= i < |left| ensures !IsSpace(left[i]) {
      assert left[i] in left;
    }
  }

  // ---------------------------------------------------------------- what is said

  /** What these lines record under a name. */
  function Says(o: OpenSsh, lines: seq<string>, name: string): Option<seq<HostKey>> {
    RecordedIn(o, SshAll(lines), name)
  }

  function Both(a: Option<seq<HostKey>>, b: Option<seq<HostKey>>): Option<seq<HostKey>> {
    if a.None? || b.None? then None else Some(a.value + b.value)
  }

  lemma SaysAppend(o: OpenSsh, a: seq<string>, b: seq<string>, name: string)
    ensures Says(o, a + b, name) == Both(Says(o, a, name), Says(o, b, name))
    ensures Says(o, [], name) == Some([])
  {
    hide RecordedIn, Ssh;
    SshAllAppend(a, b);
    RecordedAppend(o, SshAll(a), SshAll(b), name);
    RecordedOne(o, Blank, name);
  }

  /** The first of some pieces, and the others. */
  lemma SaysCons(o: OpenSsh, taken: set<string>, pieces: seq<string>, alias: string, name: string)
    requires AllPlain(taken) && pieces != []
    ensures Says(o, KeptPieces(taken, pieces, alias), name)
         == Both(Says(o, KeptPiece(taken, pieces[0], alias), name),
                 Says(o, KeptPieces(taken, pieces[1..], alias), name))
  {
    SaysAppend(o, KeptPiece(taken, pieces[0], alias), KeptPieces(taken, pieces[1..], alias), name);
  }

  lemma BothNothing(a: Option<seq<HostKey>>)
    ensures Both(a, Some([])) == a && Both(Some([]), a) == a
  {
    NothingMore(a);
  }

  /** One piece, by whether it is taken for the alias's. */
  lemma PieceSays(o: OpenSsh, taken: set<string>, line: string, p: string, alias: string, name: string)
    requires AllPlain(taken) && p in Pieces(line)
    ensures Strip(p) in taken ==> IsPlain(Py(p))
    ensures Says(o, [p], name) == RecordedIn(o, [Py(p)], name)
    ensures Says(o, KeptPiece(taken, p, alias), name)
         == if Strip(p) in taken then RecordedIn(o, Shortened(Py(p), alias), name) else Says(o, [p], name)
  {
    hide RecordedIn, ShortText, Shortened, Ssh, Py, Pieces;
    PieceReads(line, p);
    SshAllOne(p);
    if Strip(p) in taken {
      ShortTextReads(Strip(p), alias);
    }
  }

  // ---------------------------------------------------------------- one line

  /** What is kept of one line on its own. */
  function LineKept(o: OpenSsh, s: string, alias: string): seq<string>
    requires Replaceable(o, [s], alias)
  {
    KeptPieces(Taken(o, [s], alias), Pieces(s), alias)
  }

  /** What is kept of the line says of every other name what the line said, and nothing of the
      alias. */
  ghost predicate Keeps(o: OpenSsh, s: string, alias: string)
    requires Replaceable(o, [s], alias)
  {
    forall n :: Askable(n, alias) ==> Says(o, LineKept(o, s, alias), n) == Due(o, Ssh(s), alias, n)
  }

  /** A hashed host that OpenSSH printed as part of another's line, where the file also holds it
      on its own: it is taken for the alias's, and whoever it speaks for loses the key. */
  ghost predicate Stray(o: OpenSsh, printed: string, s: string, alias: string) {
    exists p, n ::
      && p in Pieces(s) && Strip(p) in Taken(o, [printed], alias) && Strip(p) !in Taken(o, [s], alias)
      && Speaks(o, Py(p), n) && IsName(n) && Fold(n) != Fold(alias)
      && RecordedIn(o, [Ssh(printed)], n).Some? && RecordedIn(o, [Ssh(s)], n).Some?
  }

  predicate Speaks(o: OpenSsh, l: Line, name: string) {
    IsPlain(l) && IsHashed(l.fields[0]) && o.hashed(l.fields[0], name)
  }

  lemma {:induction false} JoinOfSplit(s: string, c: char)
    ensures JoinWith(SplitOn(s, c), c) == s
  {
    if s != "" {
      JoinOfSplit(s[1..], c);
      JoinOneMore(s[0], SplitOn(s[1..], c), c);
      assert [s[0]] + s[1..] == s;
    }
  }

  lemma JoinOneMore(x: char, rest: seq<string>, c: char)
    requires |rest| >= 1
    ensures JoinWith([""] + rest, c) == [c] + JoinWith(rest, c)
    ensures JoinWith([[x] + rest[0]] + rest[1..], c) == [x] + JoinWith(rest, c)
  {
    assert ([""] + rest)[1..] == rest && ([[x] + rest[0]] + rest[1..])[1..] == rest[1..];
    if |rest| > 1 {
      assert [x] + rest[0] + [c] + JoinWith(rest[1..], c) == [x] + (rest[0] + [c] + JoinWith(rest[1..], c));
    }
  }

  lemma {:induction false} WithoutNobody(names: seq<string>, alias: string)
    requires forall n :: n in names ==> Fold(n) != Fold(alias)
    ensures Without(names, alias) == names
  {
    hide Fold;
    if names != [] {
      assert forall n :: n in names[1..] ==> n in names;
      WithoutNobody(names[1..], alias);
    }
  }

  /** Taking the alias off an entry that is not the alias's changes nothing, or drops a hash, or
      leaves a comment a comment. */
  lemma NotTheAliass(o: OpenSsh, l: Line, alias: string, name: string)
    requires IsPlain(l) && !Matches(o, l, alias) && IsName(alias) && l.fields[0] != ""
    ensures RecordedIn(o, Shortened(l, alias), name)
         == if Speaks(o, l, name) then Some([]) else RecordedIn(o, [l], name)
  {
    hide RecordedIn, SplitOn, JoinWith, Fold, Without, IsPattern, IsWord;
    var host := l.fields[0];
    RecordedOne(o, l, name);
    if IsComment(host) {
      CommentStays(o, l, alias, name);
    } else if !IsHashed(host) {
      assert forall n :: n in SplitOn(host, ',') ==> Fold(n) != Fold(alias);
      WithoutNobody(SplitOn(host, ','), alias);
      JoinOfSplit(host, ',');
      assert [host] + l.fields[1..] == l.fields;
    }
  }

  lemma CommentStays(o: OpenSsh, l: Line, alias: string, name: string)
    requires IsPlain(l) && IsComment(l.fields[0]) && IsName(alias)
    ensures RecordedIn(o, Shortened(l, alias), name) == Some([])
  {
    hide RecordedIn, IsPattern;
    var host := l.fields[0];
    var names := SplitOn(host, ',');
    var remaining := Without(names, alias);
    FirstOfSplit(host);
    assert Fold(names[0])[0] == '#' && Fold(alias)[0] != '#';
    assert remaining[0] == names[0];
    JoinStarts(remaining);
    var left := JoinWith(remaining, ',');
    var k := Rewritten(left, l.fields[1..]);
    assert k.fields[0] == left;
    RecordedOne(o, k, name);
  }

  lemma FirstOfSplit(host: string)
    requires IsComment(host)
    ensures IsComment(SplitOn(host, ',')[0])
  {
  }

  lemma JoinStarts(parts: seq<string>)
    requires |parts| >= 1 && IsComment(parts[0])
    ensures IsComment(JoinWith(parts, ','))
  {
  }

  lemma {:induction false} PieceIsHeard(
      o: OpenSsh, taken: set<string>, pieces: seq<string>, p: string, alias: string, name: string)
    requires AllPlain(taken) && p in pieces && Says(o, KeptPiece(taken, p, alias), name) != Some([])
    ensures Says(o, KeptPieces(taken, pieces, alias), name) != Some([])
    decreases |pieces|
  {
    hide Says, KeptPiece, KeptPieces;
    SaysCons(o, taken, pieces, alias, name);
    if p != pieces[0] {
      assert p in pieces[1..];
      PieceIsHeard(o, taken, pieces[1..], p, alias, name);
    }
  }

  /** A piece of a line that keeps its word, taken because another line printed the same text:
      it is not the alias's, and only a hash is lost. */
  lemma TakenFromAnother(o: OpenSsh, s: string, taken: set<string>, p: string, alias: string, name: string)
    requires Replaceable(o, [s], alias) && Keeps(o, s, alias) && IsName(alias) && Askable(name, alias)
    requires AllPlain(taken) && p in Pieces(s) && Strip(p) in taken && Strip(p) !in Taken(o, [s], alias)
    ensures IsPlain(Py(p)) && (Speaks(o, Py(p), name) ==> name != alias)
    ensures Speaks(o, Py(p), name) ==> Says(o, [p], name) == Some([HostKey(Py(p).fields[1], Py(p).fields[2])])
    ensures Says(o, KeptPiece(taken, p, alias), name) == if Speaks(o, Py(p), name) then Some([]) else Says(o, [p], name)
  {
    hide RecordedIn, Says, Shortened, Taken, Pieces, Strip, Words, KeptPieces, OnList, IsPattern, IsWord;
    PieceSays(o, taken, s, p, alias, name);
    RecordedOne(o, Py(p), name);
    FieldsAreWords(p);
    if Matches(o, Py(p), alias) {
      OwnPieceIsHeard(o, s, p, alias);
      assert false;
    } else {
      NotTheAliass(o, Py(p), alias, name);
    }
  }

  lemma FieldsAreWords(p: string)
    ensures Py(p).Text? ==> Py(p).fields[0] != ""
  {
    WordsAreWords(p, IsSpace);
    if Py(p).Text? {
      assert Words(p, IsSpace)[0] in Words(p, IsSpace);
    }
  }

  lemma OwnPieceIsHeard(o: OpenSsh, s: string, p: string, alias: string)
    requires Replaceable(o, [s], alias) && IsName(alias)
    requires p in Pieces(s) && Strip(p) !in Taken(o, [s], alias) && IsPlain(Py(p)) && Matches(o, Py(p), alias)
    ensures !Keeps(o, s, alias)
  {
    hide RecordedIn, Says, Taken, Pieces, Strip, Words, KeptPieces, OnList, IsPattern, IsWord, Matches;
    PieceSays(o, Taken(o, [s], alias), s, p, alias, alias);
    RecordedOne(o, Py(p), alias);
    PieceIsHeard(o, Taken(o, [s], alias), Pieces(s), p, alias, alias);
    assert Askable(alias, alias);
  }

  /** Two ways of taking pieces under which each piece says the same. */
  lemma {:induction false} SameSays(
      o: OpenSsh, a: set<string>, b: set<string>, pieces: seq<string>, alias: string, name: string)
    requires AllPlain(a) && AllPlain(b)
    requires forall p :: p in pieces ==>
               Says(o, KeptPiece(a, p, alias), name) == Says(o, KeptPiece(b, p, alias), name)
    ensures Says(o, KeptPieces(a, pieces, alias), name) == Says(o, KeptPieces(b, pieces, alias), name)
  {
    hide Says, KeptPiece;
    if pieces != [] {
      SaysCons(o, a, pieces, alias, name);
      SaysCons(o, b, pieces, alias, name);
      assert forall p :: p in pieces[1..] ==> p in pieces;
      SameSays(o, a, b, pieces[1..], alias, name);
    }
  }

  /** What cannot be said of a name stays so however many pieces are taken. */
  lemma {:induction false} NothingStays(
      o: OpenSsh, s: string, a: set<string>, b: set<string>, pieces: seq<string>, alias: string, name: string)
    requires a <= b && AllPlain(b) && forall p :: p in pieces ==> p in Pieces(s)
    requires Says(o, KeptPieces(a, pieces, alias), name).None?
    ensures Says(o, KeptPieces(b, pieces, alias), name).None?
    decreases |pieces|
  {
    hide Says, KeptPiece, Shortened, RecordedIn, Pieces, IsPlain;
    if pieces == [] {
      SaysAppend(o, [], [], name);
    } else {
      SaysCons(o, a, pieces, alias, name);
      SaysCons(o, b, pieces, alias, name);
      if Says(o, KeptPiece(a, pieces[0], alias), name).None? {
        PieceStaysSilent(o, s, a, b, pieces[0], alias, name);
      } else {
        NothingStays(o, s, a, b, pieces[1..], alias, name);
      }
    }
  }

  lemma PieceStaysSilent(
      o: OpenSsh, s: string, a: set<string>, b: set<string>, p: string, alias: string, name: string)
    requires a <= b && AllPlain(b) && p in Pieces(s) && Says(o, KeptPiece(a, p, alias), name).None?
    ensures Says(o, KeptPiece(b, p, alias), name).None?
  {
    hide Says, Shortened, RecordedIn, Pieces, Matches, IsPlain;
    PieceSays(o, a, s, p, alias, name);
    PieceSays(o, b, s, p, alias, name);
    RecordedOne(o, Py(p), name);
  }

  /** A line among others: what they print makes no difference to what is kept of it, except where
      a hash of its own is taken. */
  lemma LineAmongOthers(o: OpenSsh, s: string, taken: set<string>, alias: string, name: string)
    requires Replaceable(o, [s], alias) && Keeps(o, s, alias) && IsName(alias) && Askable(name, alias)
    requires AllPlain(taken) && Taken(o, [s], alias) <= taken
    requires Due(o, Ssh(s), alias, name).Some? ==>
               forall p :: p in Pieces(s) && Strip(p) in taken && Strip(p) !in Taken(o, [s], alias) ==>
                 !Speaks(o, Py(p), name)
    ensures Says(o, KeptPieces(taken, Pieces(s), alias), name) == Due(o, Ssh(s), alias, name)
  {
    hide Says, Shortened, RecordedIn, Pieces, Matches, IsPlain, Taken, Speaks, Strip, Askable, Due;
    var own := Taken(o, [s], alias);
    if Due(o, Ssh(s), alias, name).None? {
      NothingStays(o, s, own, taken, Pieces(s), alias, name);
    } else {
      forall p | p in Pieces(s)
        ensures Says(o, KeptPiece(own, p, alias), name) == Says(o, KeptPiece(taken, p, alias), name)
      {
        if Strip(p) in taken && Strip(p) !in own {
          TakenFromAnother(o, s, taken, p, alias, name);
        }
      }
      SameSays(o, own, taken, Pieces(s), alias, name);
    }
  }

  // ---------------------------------------------------------------- the whole file

  lemma TakenOfOne(o: OpenSsh, s: string, alias: string)
    ensures forall q :: q in Taken(o, [s], alias) <==> Matches(o, Ssh(s), alias) && q in Entries(Pieces(s))
  {
    hide Matches, Entries, Pieces, Ssh;
    assert [s][1..] == [];
    assert forall q :: q in Taken(o, [s], alias) <==> q in Printed(o, [s], alias);
  }

  /** What is taken is what each line prints. */
  lemma {:induction false} TakenByLine(o: OpenSsh, lines: seq<string>, alias: string)
    ensures forall q :: q in Taken(o, lines, alias) <==> exists t :: t in lines && q in Taken(o, [t], alias)
  {
    hide Matches, Entries, Pieces, Ssh;
    if lines != [] {
      TakenByLine(o, lines[1..], alias);
      TakenOfOne(o, lines[0], alias);
      forall q
        ensures q in Taken(o, lines, alias) <==> q in Taken(o, [lines[0]], alias) || q in Taken(o, lines[1..], alias)
      {}
      assert forall t :: t in lines <==> t == lines[0] || t in lines[1..];
    }
  }

  /** Where every line keeps its word so does the file. */
  lemma {:induction false} LinesSay(o: OpenSsh, taken: set<string>, lines: seq<string>, alias: string, name: string)
    requires AllPlain(taken)
    requires forall s :: s in lines ==>
               Says(o, KeptPieces(taken, Pieces(s), alias), name) == Due(o, Ssh(s), alias, name)
    ensures Says(o, KeptPieces(taken, AllPieces(lines), alias), name)
         == if name == alias then Some([]) else RecordedIn(o, SshAll(lines), name)
  {
    hide RecordedIn, KeptPieces, Pieces, Ssh;
    if lines == [] {
      NothingKept(o, taken, alias, name);
    } else {
      var s, rest := lines[0], lines[1..];
      assert forall x :: x in rest ==> x in lines;
      LinesSay(o, taken, rest, alias, name);
      LineAndRest(o, taken, s, rest, alias, name);
      assert lines == [s] + rest;
      BothNothing(Some([]));
    }
  }

  lemma NothingKept(o: OpenSsh, taken: set<string>, alias: string, name: string)
    requires AllPlain(taken)
    ensures Says(o, KeptPieces(taken, AllPieces([]), alias), name) == Some([])
    ensures RecordedIn(o, SshAll([]), name) == Some([])
  {
    SaysAppend(o, [], [], name);
  }

  lemma LineAndRest(o: OpenSsh, taken: set<string>, s: string, rest: seq<string>, alias: string, name: string)
    requires AllPlain(taken)
    ensures Says(o, KeptPieces(taken, AllPieces([s] + rest), alias), name)
         == Both(Says(o, KeptPieces(taken, Pieces(s), alias), name),
                 Says(o, KeptPieces(taken, AllPieces(rest), alias), name))
    ensures RecordedIn(o, SshAll([s] + rest), name)
         == Both(RecordedIn(o, [Ssh(s)], name), RecordedIn(o, SshAll(rest), name))
  {
    hide RecordedIn, KeptPieces, Pieces, AllPieces, Ssh;
    AllPiecesCons(s, rest);
    KeptAppend(taken, Pieces(s), AllPieces(rest), alias);
    SaysAppend(o, KeptPieces(taken, Pieces(s), alias), KeptPieces(taken, AllPieces(rest), alias), name);
    SshAllAppend([s], rest);
    SshAllOne(s);
    RecordedAppend(o, [Ssh(s)], SshAll(rest), name);
  }

  /** One line that cannot be read for a name is enough. */
  lemma {:induction false} OneLineSpoils(
      o: OpenSsh, taken: set<string>, lines: seq<string>, t: string, alias: string, name: string)
    requires AllPlain(taken) && t in lines
    requires Says(o, KeptPieces(taken, Pieces(t), alias), name).None? && RecordedIn(o, [Ssh(t)], name).None?
    ensures Says(o, KeptPieces(taken, AllPieces(lines), alias), name).None? && RecordedIn(o, SshAll(lines), name).None?
    decreases |lines|
  {
    hide RecordedIn, KeptPieces, Pieces, AllPieces, Ssh, SshAll, Says;
    var s, rest := lines[0], lines[1..];
    LineAndRest(o, taken, s, rest, alias, name);
    assert lines == [s] + rest;
    if t != s {
      OneLineSpoils(o, taken, rest, t, alias, name);
    }
  }

  function Among(lines: seq<string>): set<string> {
    set s | s in lines
  }

  /** A file all of whose lines keep their word, and where nobody's hash is taken. */
  ghost predicate Sound(o: OpenSsh, lines: set<string>, alias: string)
    requires forall s :: s in lines ==> Replaceable(o, [s], alias)
  {
    && (forall s :: s in lines ==> Keeps(o, s, alias))
    && forall t, s :: t in lines && s in lines ==> !Stray(o, t, s, alias)
  }

  lemma ReplaceableByLine(o: OpenSsh, lines: seq<string>, alias: string)
    ensures Replaceable(o, lines, alias) <==> forall s :: s in lines ==> Replaceable(o, [s], alias)
    ensures forall s :: s in lines ==> Taken(o, [s], alias) <= Taken(o, lines, alias)
  {
    hide Taken, IsPlain;
    TakenByLine(o, lines, alias);
    if forall s :: s in lines ==> Replaceable(o, [s], alias) {
      forall q | q in Taken(o, lines, alias) ensures IsPlain(Py(q)) {
        var t :| t in lines && q in Taken(o, [t], alias);
        assert Replaceable(o, [t], alias);
      }
    }
  }

  lemma SoundFile(o: OpenSsh, lines: seq<string>, alias: string, name: string)
    requires forall s :: s in lines ==> Replaceable(o, [s], alias)
    requires Replaceable(o, lines, alias) && Sound(o, Among(lines), alias) && IsName(alias) && Askable(name, alias)
    ensures Says(o, KeptPieces(Taken(o, lines, alias), AllPieces(lines), alias), name)
         == if name == alias then Some([]) else RecordedIn(o, SshAll(lines), name)
  {
    hide RecordedIn, KeptPieces, Pieces, AllPieces, Ssh, SshAll, Says, Taken, IsPlain, Keeps, Stray, Askable;
    var taken := Taken(o, lines, alias);
    ReplaceableByLine(o, lines, alias);
    if t :| t in lines && Due(o, Ssh(t), alias, name).None? {
      LineAmongOthers(o, t, taken, alias, name);
      OneLineSpoils(o, taken, lines, t, alias, name);
    } else {
      forall s | s in lines ensures Says(o, KeptPieces(taken, Pieces(s), alias), name) == Due(o, Ssh(s), alias, name) {
        NoHashIsTaken(o, lines, s, alias, name);
        LineAmongOthers(o, s, taken, alias, name);
      }
      LinesSay(o, taken, lines, alias, name);
    }
  }

  lemma NoHashIsTaken(o: OpenSsh, lines: seq<string>, s: string, alias: string, name: string)
    requires forall s :: s in lines ==> Replaceable(o, [s], alias)
    requires Sound(o, Among(lines), alias) && IsName(alias) && Askable(name, alias) && s in lines
    requires forall t :: t in lines ==> Due(o, Ssh(t), alias, name).Some?
    ensures forall p :: p in Pieces(s) && Strip(p) in Taken(o, lines, alias) && Strip(p) !in Taken(o, [s], alias) ==>
              !Speaks(o, Py(p), name)
  {
    hide RecordedIn, KeptPieces, Pieces, AllPieces, Ssh, SshAll, Says, Taken, IsPlain, Keeps, Strip, IsName, Speaks;
    TakenByLine(o, lines, alias);
    ReplaceableByLine(o, lines, alias);
    forall p | p in Pieces(s) && Strip(p) in Taken(o, lines, alias) && Strip(p) !in Taken(o, [s], alias)
      ensures !Speaks(o, Py(p), name)
    {
      TakenFromAnother(o, s, Taken(o, lines, alias), p, alias, name);
      var t :| t in lines && Strip(p) in Taken(o, [t], alias);
      assert Due(o, Ssh(t), alias, name).Some? && Due(o, Ssh(s), alias, name).Some?;
      assert !Stray(o, t, s, alias);
    }
  }

  // ---------------------------------------------------------------- what OpenSSH reads afterwards

  /** A key OpenSSH can read back: two words. */
  predicate IsKey(key: HostKey) {
    IsWord(key.keyType, IsSpace) && IsWord(key.key, IsSpace)
  }

  lemma NewTextReads(alias: string, key: HostKey)
    requires IsName(alias) && IsKey(key)
    ensures Ssh(NewText(alias, key)) == NewLine(alias, key) && '\n' !in NewText(alias, key)
  {
    hide JoinWith, Words, IsPattern, IsHashed;
    WordsOfJoin([alias, key.keyType, key.key], ' ', SshSpace);
    JoinedCharacters([alias, key.keyType, key.key], ' ');
  }

  lemma {:induction false} NewlinesOfWritten(lines: seq<string>)
    requires forall l :: l in lines ==> '\n' !in l
    ensures SplitOn(WriteLines(lines), '\n') == lines + [""]
  {
    hide SplitOn;
    if lines == [] {
      SplitOfOne("", '\n');
    } else {
      assert forall l :: l in lines[1..] ==> l in lines;
      NewlinesOfWritten(lines[1..]);
      SplitOfCons(lines[0], '\n', WriteLines(lines[1..]));
      assert lines[0] + "\n" + WriteLines(lines[1..]) == lines[0] + ['\n'] + WriteLines(lines[1..]);
      assert lines + [""] == [lines[0]] + (lines[1..] + [""]);
    }
  }

  lemma {:induction false} KeptOnLines(taken: set<string>, pieces: seq<string>, alias: string)
    requires AllPlain(taken) && forall p :: p in pieces ==> '\n' !in p
    ensures forall t :: t in KeptPieces(taken, pieces, alias) ==> '\n' !in t
  {
    hide ShortText, IsPlain;
    if pieces != [] {
      assert forall p :: p in pieces[1..] ==> p in pieces;
      KeptOnLines(taken, pieces[1..], alias);
      if Strip(pieces[0]) in taken {
        ShortTextReads(Strip(pieces[0]), alias);
      }
    }
  }

  lemma PiecesHoldNoNewline(text: string)
    ensures forall p :: p in NotBlank(SplitLines(text)) ==> '\n' !in p
  {
    SplitIsBreakFree(text);
    NotBlankHolds(SplitLines(text));
  }

  /** What the file says after the alias got its key, by what is kept of its lines. */
  lemma AfterSays(o: OpenSsh, text: string, alias: string, key: HostKey, name: string)
    requires Replaceable(o, SplitOn(text, '\n'), alias) && IsName(alias) && IsKey(key) && Askable(name, alias)
    ensures var lines := SplitOn(text, '\n');
            var said := Says(o, KeptPieces(Taken(o, lines, alias), AllPieces(lines), alias), name);
            Trust(o, Replaced(o, text, alias, key), name) == if name == alias then Both(said, Some([key])) else said
  {
    hide RecordedIn, SplitOn, SplitLines, NotBlank, AllPieces, KeptPieces, Taken, Ssh, SshAll, IsName, Askable, IsKey,
      NewText;
    var taken := Taken(o, SplitOn(text, '\n'), alias);
    var kept, more := KeptPieces(taken, AllPieces(SplitOn(text, '\n')), alias), NewText(alias, key);
    PiecesOfText(text);
    PiecesHoldNoNewline(text);
    KeptOnLines(taken, NotBlank(SplitLines(text)), alias);
    NewTextReads(alias, key);
    NewlinesOfWritten(kept + [more]);
    NewLineSays(o, kept, more, alias, key, name);
  }

  lemma NewLineSays(o: OpenSsh, kept: seq<string>, more: string, alias: string, key: HostKey, name: string)
    requires IsName(alias) && Askable(name, alias) && Ssh(more) == NewLine(alias, key)
    ensures RecordedIn(o, SshAll(kept + [more] + [""]), name)
         == if name == alias then Both(Says(o, kept, name), Some([key])) else Says(o, kept, name)
  {
    hide RecordedIn, IsName, Askable, NewLine;
    SaysAppend(o, kept + [more], [""], name);
    SshAllOne("");
    SshAllOne(more);
    RecordedOne(o, Blank, name);
    BothNothing(Says(o, kept + [more], name));
    SshAllAppend(kept, [more]);
    NewLineSpeaks(o, SshAll(kept), alias, key, name);
  }

  /** After a write the alias is trusted under exactly the new key, and every other name under
      exactly the keys it was. */
  ghost predicate ReplacesOnly(o: OpenSsh, text: string, alias: string, key: HostKey)
    requires Replaceable(o, SplitOn(text, '\n'), alias)
  {
    var after := Replaced(o, text, alias, key);
    && Trust(o, after, alias) == Some([key])
    && forall other :: IsName(other) && Fold(other) != Fold(alias) ==> Trust(o, after, other) == Trust(o, text, other)
  }

  lemma SoundIsReplaced(o: OpenSsh, text: string, alias: string, key: HostKey)
    requires forall s :: s in SplitOn(text, '\n') ==> Replaceable(o, [s], alias)
    requires Replaceable(o, SplitOn(text, '\n'), alias) && Sound(o, Among(SplitOn(text, '\n')), alias)
    requires IsName(alias) && IsKey(key)
    ensures ReplacesOnly(o, text, alias, key)
  {
    hide RecordedIn, Sound, IsName, Fold, Replaced, Replaceable, KeptPieces, AllPieces, Taken, SshAll, IsKey;
    AfterSays(o, text, alias, key, alias);
    SoundFile(o, SplitOn(text, '\n'), alias, alias);
    BothNothing(Some([key]));
    forall other | IsName(other) && Fold(other) != Fold(alias)
      ensures Trust(o, Replaced(o, text, alias, key), other) == Trust(o, text, other)
    {
      AfterSays(o, text, alias, key, other);
      SoundFile(o, SplitOn(text, '\n'), alias, other);
    }
  }

  // ---------------------------------------------------------------- where the frame stops holding

  lemma OneLineFile(s: string)
    requires '\n' !in s
    ensures SplitOn(WriteLines([s]), '\n') == [s, ""]
  {
    NewlinesOfWritten([s]);
  }

  lemma EmptyLine(o: OpenSsh, alias: string)
    ensures Taken(o, [""], alias) == {} && Pieces("") == [] && Ssh("") == Blank
  {
    TakenOfOne(o, "", alias);
  }

  /** What is taken from a file of these lines and an empty one. */
  lemma TakenOfTwo(o: OpenSsh, a: string, b: string, alias: string)
    ensures Taken(o, [a, b, ""], alias) == Taken(o, [a], alias) + Taken(o, [b], alias)
    ensures Taken(o, [a, ""], alias) == Taken(o, [a], alias)
  {
    hide Taken;
    TakenByLine(o, [a, b, ""], alias);
    TakenByLine(o, [a, ""], alias);
    EmptyLine(o, alias);
  }

  lemma PiecesOfTwo(a: string, b: string)
    ensures AllPieces([a, b, ""]) == Pieces(a) + Pieces(b) && AllPieces([a, ""]) == Pieces(a)
  {
    hide Pieces, AllPieces;
    PiecesOfEmpty();
    PiecesOfOne("");
    AllPiecesCons(b, [""]);
    AllPiecesCons(a, [b, ""]);
    AllPiecesCons(a, [""]);
    assert [a] + [b, ""] == [a, b, ""] && [b] + [""] == [b, ""] && [a] + [""] == [a, ""];
  }

  lemma PiecesOfEmpty()
    ensures Pieces("") == []
  {
  }

  lemma LinesOfTwo(o: OpenSsh, a: string, b: string, name: string)
    ensures RecordedIn(o, SshAll([a, b, ""]), name)
         == Both(RecordedIn(o, [Ssh(a)], name), RecordedIn(o, [Ssh(b)], name))
    ensures RecordedIn(o, SshAll([a, ""]), name) == RecordedIn(o, [Ssh(a)], name)
  {
    hide RecordedIn;
    SshAllOne(a);
    SshAllOne(b);
    SshAllOne("");
    RecordedOne(o, Blank, name);
    SaysAppend(o, [b], [""], name);
    SaysAppend(o, [a], [b, ""], name);
    SaysAppend(o, [a], [""], name);
    BothNothing(RecordedIn(o, [Ssh(a)], name));
    BothNothing(RecordedIn(o, [Ssh(b)], name));
    assert [a] + [b, ""] == [a, b, ""] && [b] + [""] == [b, ""] && [a] + [""] == [a, ""];
  }

  /** A line that does not keep its word, alone in a file, shows. */
  lemma LineShows(o: OpenSsh, s: string, alias: string, key: HostKey)
    requires '\n' !in s && Replaceable(o, [s], alias) && IsName(alias) && IsKey(key)
    requires Replaceable(o, SplitOn(WriteLines([s]), '\n'), alias) && ReplacesOnly(o, WriteLines([s]), alias, key)
    ensures Keeps(o, s, alias)
  {
    hide RecordedIn, IsName, Fold, Replaced, KeptPieces, AllPieces, Taken, SshAll, IsKey, SplitOn, WriteLines, Pieces,
      IsPlain;
    OneLineFile(s);
    TakenOfTwo(o, s, s, alias);
    PiecesOfTwo(s, s);
    forall n | Askable(n, alias) ensures Says(o, LineKept(o, s, alias), n) == Due(o, Ssh(s), alias, n) {
      AfterSays(o, WriteLines([s]), alias, key, n);
      LinesOfTwo(o, s, s, n);
      NothingBeforeIt(Says(o, LineKept(o, s, alias), n), key);
    }
  }

  lemma NothingBeforeIt(said: Option<seq<HostKey>>, key: HostKey)
    ensures Both(said, Some([key])) == Some([key]) ==> said == Some([])
  {
    if Both(said, Some([key])) == Some([key]) {
      assert |said.value + [key]| == 1;
    }
  }

  /** Losing what one piece said, and keeping what the others did, says less. */
  lemma {:induction false} LessIsSaid(
      o: OpenSsh, a: set<string>, b: set<string>, pieces: seq<string>, p: string, alias: string, name: string)
    requires AllPlain(a) && AllPlain(b) && Says(o, KeptPieces(a, pieces, alias), name).Some?
    requires forall q :: q in pieces ==>
               var before, after := Says(o, KeptPiece(a, q, alias), name), Says(o, KeptPiece(b, q, alias), name);
               before == after || after == Some([])
    ensures var before := Says(o, KeptPieces(a, pieces, alias), name);
            var after := Says(o, KeptPieces(b, pieces, alias), name);
            && after.Some? && |after.value| <= |before.value|
            && (p in pieces
                && Says(o, KeptPiece(a, p, alias), name) != Says(o, KeptPiece(b, p, alias), name)
                ==> |after.value| < |before.value|)
    decreases |pieces|
  {
    hide Says, KeptPiece, IsPlain;
    if pieces == [] {
    } else {
      SaysCons(o, a, pieces, alias, name);
      SaysCons(o, b, pieces, alias, name);
      assert forall q :: q in pieces[1..] ==> q in pieces;
      LessIsSaid(o, a, b, pieces[1..], p, alias, name);
      assert p in pieces ==> p == pieces[0] || p in pieces[1..];
    }
  }

  /** A line from which a hash is taken is not the alias's own. */
  lemma HashIsNoComment(o: OpenSsh, s: string, p: string, alias: string, name: string)
    requires p in Pieces(s) && Strip(p) !in Taken(o, [s], alias) && Speaks(o, Py(p), name)
    ensures Taken(o, [s], alias) == {}
  {
    hide Taken, Words, Pieces, IsPattern, IsMarker, Strip, Entries, Ssh, Matches;
    TakenOfOne(o, s, alias);
    if Matches(o, Ssh(s), alias) {
      if IsComment(p) {
        CommentStarts(s, p);
      }
    }
  }

  lemma CommentStarts(s: string, p: string)
    requires p in Pieces(s) && IsComment(p)
    ensures Py(p).Text? && IsComment(Py(p).fields[0])
  {
    PieceReads(s, p);
    var r := WordEnd(p, IsSpace);
    assert Words(p, IsSpace)[0] == p[..r];
  }

  /** A stray hash, and the line that printed it, show in a file of the two. */
  lemma StrayShows(o: OpenSsh, t: string, s: string, alias: string, key: HostKey)
    requires '\n' !in t && '\n' !in s && IsName(alias) && IsKey(key)
    requires Replaceable(o, [t], alias) && Replaceable(o, [s], alias) && Keeps(o, t, alias) && Keeps(o, s, alias)
    requires Replaceable(o, SplitOn(WriteLines([t, s]), '\n'), alias)
    requires Stray(o, t, s, alias)
    ensures !ReplacesOnly(o, WriteLines([t, s]), alias, key)
  {
    hide RecordedIn, Replaced, KeptPieces, AllPieces, Taken, SshAll, SplitOn, WriteLines, Pieces, IsPlain, Says, Strip,
      Fold, IsWord, IsPattern, Ssh, Py, Speaks;
    var p, n :| p in Pieces(s) && Strip(p) in Taken(o, [t], alias) && Strip(p) !in Taken(o, [s], alias)
      && Speaks(o, Py(p), n) && IsName(n) && Fold(n) != Fold(alias)
      && RecordedIn(o, [Ssh(t)], n).Some? && RecordedIn(o, [Ssh(s)], n).Some?;
    assert Askable(n, alias) && n != alias;
    hide IsName;
    var text, taken := WriteLines([t, s]), Taken(o, [t], alias);
    NewlinesOfWritten([t, s]);
    HashIsNoComment(o, s, p, alias, n);
    TakenOfTwo(o, t, s, alias);
    assert [t, s] + [""] == [t, s, ""] && taken + {} == taken;
    PiecesOfTwo(t, s);
    AfterSays(o, text, alias, key, n);
    LinesOfTwo(o, t, s, n);
    KeptAppend(taken, Pieces(t), Pieces(s), alias);
    SaysAppend(o, KeptPieces(taken, Pieces(t), alias), KeptPieces(taken, Pieces(s), alias), n);
    HashIsLost(o, s, taken, p, alias, n);
    assert Due(o, Ssh(t), alias, n) == Says(o, LineKept(o, t, alias), n);
    ShorterTogether(
      RecordedIn(o, [Ssh(t)], n), RecordedIn(o, [Ssh(s)], n), Says(o, KeptPieces(taken, Pieces(s), alias), n));
  }

  lemma ShorterTogether(x: Option<seq<HostKey>>, y: Option<seq<HostKey>>, z: Option<seq<HostKey>>)
    requires x.Some? && y.Some? && z.Some? && |z.value| < |y.value|
    ensures Both(x, z) != Both(x, y)
  {
    assert |Both(x, z).value| < |Both(x, y).value|;
  }

  lemma HashIsLost(o: OpenSsh, s: string, taken: set<string>, p: string, alias: string, name: string)
    requires Replaceable(o, [s], alias) && Keeps(o, s, alias) && IsName(alias) && Askable(name, alias) && name != alias
    requires Taken(o, [s], alias) == {} && AllPlain(taken) && p in Pieces(s) && Strip(p) in taken
    requires Speaks(o, Py(p), name) && RecordedIn(o, [Ssh(s)], name).Some?
    ensures var after := Says(o, KeptPieces(taken, Pieces(s), alias), name);
            after.Some? && |after.value| < |RecordedIn(o, [Ssh(s)], name).value|
  {
    hide RecordedIn, KeptPieces, Taken, Pieces, IsPlain, Says, Strip, Fold, IsWord, IsPattern, Ssh, Py, Speaks, IsName;
    assert Due(o, Ssh(s), alias, name) == Says(o, LineKept(o, s, alias), name);
    forall q | q in Pieces(s)
      ensures KeptPiece({}, q, alias) == [q]
      ensures Strip(q) !in taken ==> KeptPiece(taken, q, alias) == [q]
      ensures Strip(q) in taken ==>
                Says(o, KeptPiece(taken, q, alias), name)
                == if Speaks(o, Py(q), name) then Some([]) else Says(o, [q], name)
    {
      if Strip(q) in taken {
        TakenFromAnother(o, s, taken, q, alias, name);
      }
    }
    TakenFromAnother(o, s, taken, p, alias, name);
    LessIsSaid(o, {}, taken, Pieces(s), p, alias, name);
  }

  /** A text all of whose lines, but empty ones, are among these. */
  ghost predicate MadeOf(text: string, lines: set<string>) {
    forall s :: s in SplitOn(text, '\n') ==> s == "" || s in lines
  }

  /** Every file made of these lines is rewritten as promised if and only if each keeps its word
      and none prints a hash that another holds. */
  lemma WriteReplacesOneAliasIff(o: OpenSsh, lines: set<string>, alias: string, key: HostKey)
    requires IsName(alias) && IsKey(key)
    requires forall s :: s in lines ==> '\n' !in s && Replaceable(o, [s], alias)
    ensures (forall text :: MadeOf(text, lines) ==>
               Replaceable(o, SplitOn(text, '\n'), alias) && ReplacesOnly(o, text, alias, key))
        <==> Sound(o, lines, alias)
  {
    hide SplitOn, Taken, IsName, IsKey, Keeps, Stray, ReplacesOnly, WriteLines, IsPlain, Replaceable;
    forall text | MadeOf(text, lines)
      ensures Replaceable(o, SplitOn(text, '\n'), alias)
      ensures Sound(o, lines, alias) ==> ReplacesOnly(o, text, alias, key)
    {
      MadeOfSound(o, text, lines, alias);
      if Sound(o, lines, alias) {
        SoundIsReplaced(o, text, alias, key);
      }
    }
    if forall text :: MadeOf(text, lines) ==> ReplacesOnly(o, text, alias, key) {
      forall s | s in lines ensures Keeps(o, s, alias) {
        OneLineFile(s);
        assert MadeOf(WriteLines([s]), lines);
        LineShows(o, s, alias, key);
      }
      forall t, s | t in lines && s in lines ensures !Stray(o, t, s, alias) {
        if Stray(o, t, s, alias) {
          NewlinesOfWritten([t, s]);
          assert MadeOf(WriteLines([t, s]), lines);
          StrayShows(o, t, s, alias, key);
        }
      }
    }
  }

  lemma MadeOfSound(o: OpenSsh, text: string, lines: set<string>, alias: string)
    requires MadeOf(text, lines) && forall s :: s in lines ==> Replaceable(o, [s], alias)
    ensures forall s :: s in SplitOn(text, '\n') ==> Replaceable(o, [s], alias)
    ensures Replaceable(o, SplitOn(text, '\n'), alias)
    ensures Sound(o, lines, alias) ==> Sound(o, Among(SplitOn(text, '\n')), alias)
  {
    hide SplitOn, Taken, Keeps, Stray, IsPlain;
    EmptyLine(o, alias);
    ReplaceableByLine(o, SplitOn(text, '\n'), alias);
    if Sound(o, lines, alias) {
      EmptyLineIsSound(o, alias);
    }
  }

  lemma EmptyLineIsSound(o: OpenSsh, alias: string)
    ensures Replaceable(o, [""], alias) && Keeps(o, "", alias)
    ensures forall s :: Replaceable(o, [s], alias) ==> !Stray(o, "", s, alias) && !Stray(o, s, "", alias)
  {
    hide Taken, RecordedIn;
    EmptyLine(o, alias);
    forall n | Askable(n, alias) ensures Says(o, LineKept(o, "", alias), n) == Due(o, Ssh(""), alias, n) {
      RecordedOne(o, Blank, n);
    }
  }
}
