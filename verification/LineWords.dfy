/** Cutting text at separators and putting it together again, and the lines of a file as two
    programs see them: one ends a line at a newline only, the other at every line break. */
module LineWords {
  import opened TextLines

  function SplitOn(s: string, c: char): (r: seq<string>)
    ensures |r| >= 1
  {
    if s == "" then [""]
    else
      var rest := SplitOn(s[1..], c);
      if s[0] == c then [""] + rest else [[s[0]] + rest[0]] + rest[1..]
  }

  function JoinWith(parts: seq<string>, c: char): string
    requires |parts| >= 1
  {
    if |parts| == 1 then parts[0] else parts[0] + [c] + JoinWith(parts[1..], c)
  }

  lemma {:induction false} SplitParts(s: string, c: char)
    ensures forall p :: p in SplitOn(s, c) ==> c !in p && forall x :: x in p ==> x in s
  {
    if s != "" {
      SplitParts(s[1..], c);
      var rest := SplitOn(s[1..], c);
      assert rest[0] in rest;
      assert s == [s[0]] + s[1..];
    }
  }

  lemma {:induction false} SplitOfOne(p: string, c: char)
    requires c !in p
    ensures SplitOn(p, c) == [p]
  {
    if p != "" {
      SplitOfOne(p[1..], c);
      assert [p[0]] + p[1..] == p;
    }
  }

  lemma {:induction false} SplitOfCons(p: string, c: char, rest: string)
    requires c !in p
    ensures SplitOn(p + [c] + rest, c) == [p] + SplitOn(rest, c)
  {
    var s := p + [c] + rest;
    if p == "" {
      assert s[1..] == rest;
    } else {
      SplitOfCons(p[1..], c, rest);
      assert s[1..] == p[1..] + [c] + rest;
      assert [p[0]] + p[1..] == p;
    }
  }

  lemma {:induction false} SplitOfJoin(parts: seq<string>, c: char)
    requires |parts| >= 1 && forall p :: p in parts ==> c !in p
    ensures SplitOn(JoinWith(parts, c), c) == parts
  {
    if |parts| == 1 {
      SplitOfOne(parts[0], c);
    } else {
      SplitOfJoin(parts[1..], c);
      SplitOfCons(parts[0], c, JoinWith(parts[1..], c));
    }
  }

  lemma {:induction false} JoinedCharacters(parts: seq<string>, c: char)
    requires |parts| >= 1
    ensures forall x :: x in JoinWith(parts, c) ==> x == c || exists p :: p in parts && x in p
  {
    if |parts| > 1 {
      JoinedCharacters(parts[1..], c);
      assert parts == [parts[0]] + parts[1..];
    }
  }

  // ---------------------------------------------------------------- words

  type Separator = char -> bool

  predicate IsWord(s: string, sep: Separator) {
    s != "" && forall i :: 0 <= i < |s| ==> !sep(s[i])
  }

  function WordEnd(s: string, sep: Separator): (r: nat)
    ensures r <= |s| && (forall i :: 0 <= i < r ==> !sep(s[i])) && (r < |s| ==> sep(s[r]))
  {
    if s == "" || sep(s[0]) then 0 else 1 + WordEnd(s[1..], sep)
  }

  /** The words between separators, as `str.split` finds them. */
  function Words(s: string, sep: Separator): seq<string>
    decreases |s|
  {
    if s == "" then []
    else if sep(s[0]) then Words(s[1..], sep)
    else
      var r := WordEnd(s, sep);
      [s[..r]] + Words(s[r..], sep)
  }

  lemma {:induction false} WordsAreWords(s: string, sep: Separator)
    ensures forall w :: w in Words(s, sep) ==> IsWord(w, sep) && forall c :: c in w ==> c in s
    decreases |s|
  {
    if s != "" {
      if sep(s[0]) {
        WordsAreWords(s[1..], sep);
      } else {
        WordsAreWords(s[WordEnd(s, sep)..], sep);
      }
    }
  }

  /** Two notions of a separator that agree on every character find the same words. */
  lemma {:induction false} SameWords(s: string, a: Separator, b: Separator)
    requires forall i :: 0 <= i < |s| ==> (a(s[i]) <==> b(s[i]))
    ensures Words(s, a) == Words(s, b)
    decreases |s|
  {
    if s != "" {
      if a(s[0]) {
        SameWords(s[1..], a, b);
      } else {
        SameEnd(s, a, b);
        SameWords(s[WordEnd(s, a)..], a, b);
      }
    }
  }

  lemma {:induction false} SameEnd(s: string, a: Separator, b: Separator)
    requires forall i :: 0 <= i < |s| ==> (a(s[i]) <==> b(s[i]))
    ensures WordEnd(s, a) == WordEnd(s, b)
  {
    if s != "" && !a(s[0]) {
      SameEnd(s[1..], a, b);
    }
  }

  lemma WordEndAt(w: string, rest: string, sep: Separator)
    requires IsWord(w, sep) && (rest != "" ==> sep(rest[0]))
    ensures WordEnd(w + rest, sep) == |w|
  {
    var s := w + rest;
    var r := WordEnd(s, sep);
    assert forall i :: 0 <= i < |w| ==> s[i] == w[i];
    assert rest != "" ==> s[|w|] == rest[0];
  }

  lemma FirstWord(w: string, rest: string, sep: Separator)
    requires IsWord(w, sep) && (rest != "" ==> sep(rest[0]))
    ensures Words(w + rest, sep) == [w] + Words(rest, sep)
  {
    var s := w + rest;
    WordEndAt(w, rest, sep);
    assert s[0] == w[0] && s[..|w|] == w && s[|w|..] == rest;
  }

  /** Words joined by a separator are found again. */
  lemma {:induction false} WordsOfJoin(parts: seq<string>, c: char, sep: Separator)
    requires |parts| >= 1 && sep(c) && forall p :: p in parts ==> IsWord(p, sep)
    ensures Words(JoinWith(parts, c), sep) == parts
  {
    if |parts| == 1 {
      FirstWord(parts[0], "", sep);
      assert parts[0] + "" == parts[0];
    } else {
      var rest := JoinWith(parts[1..], c);
      WordsOfJoin(parts[1..], c, sep);
      FirstWord(parts[0], [c] + rest, sep);
      assert ([c] + rest)[1..] == rest;
      assert parts[0] + [c] + rest == parts[0] + ([c] + rest);
    }
  }

  lemma {:induction false} SeparatorAtEnd(s: string, sep: Separator)
    requires s != "" && sep(s[|s| - 1])
    ensures Words(s, sep) == Words(s[..|s| - 1], sep)
    decreases |s|
  {
    var front := s[..|s| - 1];
    if front == "" {
      assert s[1..] == "";
    } else if sep(s[0]) {
      SeparatorAtEnd(s[1..], sep);
      assert s[1..][..|s[1..]| - 1] == front[1..];
    } else {
      hide *;
      var r := WordEnd(front, sep);
      assert r > 0 by {
        assert front[0] == s[0];
      }
      SeparatorAtEnd(s[r..], sep);
      assert s[r..][..|s[r..]| - 1] == front[r..];
      StartsAWord(front, r, sep);
      SameFirstWord(s, front, r, sep);
    }
  }

  lemma StartsAWord(s: string, r: nat, sep: Separator)
    requires 0 < r <= |s| && forall i :: 0 <= i < r ==> !sep(s[i])
    ensures IsWord(s[..r], sep)
  {
  }

  lemma SameFirstWord(s: string, front: string, r: nat, sep: Separator)
    requires r <= |front| <= |s| && front[..r] == s[..r] && IsWord(front[..r], sep)
    requires (r < |front| ==> sep(front[r])) && (r < |s| ==> sep(s[r]))
    requires Words(s[r..], sep) == Words(front[r..], sep)
    ensures Words(s, sep) == Words(front, sep)
  {
    hide Words;
    FirstWord(front[..r], front[r..], sep);
    FirstWord(front[..r], s[r..], sep);
    assert front[..r] + front[r..] == front;
    assert front[..r] + s[r..] == s;
  }

  lemma {:induction false} WordsOfStripRight(s: string)
    ensures Words(StripRight(s), IsSpace) == Words(s, IsSpace)
  {
    if s != "" && IsSpace(s[|s| - 1]) {
      SeparatorAtEnd(s, IsSpace);
      WordsOfStripRight(s[..|s| - 1]);
    }
  }

  lemma {:induction false} WordsOfStripLeft(s: string)
    ensures Words(StripLeft(s), IsSpace) == Words(s, IsSpace)
  {
    if s != "" && IsSpace(s[0]) {
      WordsOfStripLeft(s[1..]);
    }
  }

  /** Trimming does not change the words, and leaves nothing exactly where there are none. */
  lemma WordsOfStrip(s: string)
    ensures Words(Strip(s), IsSpace) == Words(s, IsSpace)
    ensures Strip(s) == "" <==> Words(s, IsSpace) == []
    ensures Strip(s) != "" ==> Words(s, IsSpace)[0] != "" && Words(s, IsSpace)[0][0] == Strip(s)[0]
  {
    WordsOfStripLeft(s);
    WordsOfStripRight(StripLeft(s));
    StrippedStarts(s);
    var t := Strip(s);
    if t != "" {
      assert Words(t, IsSpace) == [t[..WordEnd(t, IsSpace)]] + Words(t[WordEnd(t, IsSpace)..], IsSpace);
    }
  }

  lemma {:induction false} StripLeftStarts(s: string)
    ensures StripLeft(s) != "" ==> !IsSpace(StripLeft(s)[0])
  {
    if s != "" && IsSpace(s[0]) {
      StripLeftStarts(s[1..]);
    }
  }

  lemma {:induction false} StripRightStarts(s: string)
    ensures StripRight(s) != "" ==> StripRight(s)[0] == s[0]
    ensures s != "" && !IsSpace(s[0]) ==> StripRight(s) != ""
  {
    if s != "" && IsSpace(s[|s| - 1]) {
      StripRightStarts(s[..|s| - 1]);
    }
  }

  lemma StrippedStarts(s: string)
    ensures Strip(s) != "" ==> !IsSpace(Strip(s)[0])
  {
    StripLeftStarts(s);
    StripRightStarts(StripLeft(s));
  }

  // ---------------------------------------------------------------- two programs' lines

  /** What separates words within a line that ends at a newline only. */
  predicate SshSpace(c: char) {
    IsSpace(c) && (c == '\r' || !IsBreak(c))
  }

  function NotBlank(lines: seq<string>): seq<string> {
    if lines == [] then []
    else (if Strip(lines[0]) == "" then [] else [lines[0]]) + NotBlank(lines[1..])
  }

  lemma {:induction false} NotBlankHolds(lines: seq<string>)
    ensures forall l :: l in NotBlank(lines) <==> l in lines && Strip(l) != ""
  {
    hide Strip;
    if lines != [] {
      NotBlankHolds(lines[1..]);
      assert forall l :: l in lines <==> l == lines[0] || l in lines[1..];
    }
  }

  /** What one line becomes when it is cut at every line break. */
  function Pieces(line: string): seq<string> {
    NotBlank(SplitLines(line))
  }

  function AllPieces(lines: seq<string>): seq<string> {
    if lines == [] then [] else Pieces(lines[0]) + AllPieces(lines[1..])
  }

  lemma NotBlankCons(line: string, rest: seq<string>)
    ensures NotBlank([line] + rest) == NotBlank([line]) + NotBlank(rest)
  {
    assert ([line] + rest)[1..] == rest && [line][1..] == [];
  }

  lemma {:induction false} NotBlankAppend(a: seq<string>, b: seq<string>)
    ensures NotBlank(a + b) == NotBlank(a) + NotBlank(b)
  {
    if a == [] {
      assert a + b == b;
    } else {
      NotBlankAppend(a[1..], b);
      FirstNotBlank(a, b);
    }
  }

  lemma FirstNotBlank(a: seq<string>, b: seq<string>)
    requires a != [] && NotBlank(a[1..] + b) == NotBlank(a[1..]) + NotBlank(b)
    ensures NotBlank(a + b) == NotBlank(a) + NotBlank(b)
  {
    hide *;
    var first, rest := a[0], a[1..];
    NotBlankCons(first, rest);
    NotBlankCons(first, rest + b);
    assert [first] + rest == a;
    assert [first] + (rest + b) == a + b;
  }

  lemma AllPiecesCons(line: string, rest: seq<string>)
    ensures AllPieces([line] + rest) == Pieces(line) + AllPieces(rest)
  {
    assert ([line] + rest)[1..] == rest;
  }

  lemma PiecesOfOne(line: string)
    ensures AllPieces([line]) == Pieces(line)
  {
    assert [line][1..] == [];
  }

  /** The first line of a text, and the lines after it. */
  lemma NewlineCuts(text: string)
    ensures IndexOf(text, '\n') == |text| ==> SplitOn(text, '\n') == [text]
    ensures IndexOf(text, '\n') < |text| ==>
              SplitOn(text, '\n')
              == [text[..IndexOf(text, '\n')]] + SplitOn(text[IndexOf(text, '\n') + 1..], '\n')
  {
    hide *;
    var i := IndexOf(text, '\n');
    if i == |text| {
      assert text[..i] == text;
      SplitOfOne(text, '\n');
    } else {
      CutAt(text, i);
      SplitOfCons(text[..i], '\n', text[i + 1..]);
    }
  }

  lemma CutAt(s: string, i: nat)
    requires i < |s|
    ensures s[..i] + [s[i]] + s[i + 1..] == s
  {
  }

  lemma IndexAt(s: string, c: char, i: nat)
    requires i <= |s| && (forall k :: 0 <= k < i ==> s[k] != c) && (i < |s| ==> s[i] == c)
    ensures IndexOf(s, c) == i
  {
    var r := IndexOf(s, c);
    assert forall k :: 0 <= k < r ==> s[k] == s[..r][k];
  }

  lemma PiecesOfBreakFree(line: string)
    requires BreakFree(line)
    ensures Pieces(line) == NotBlank([line])
  {
    BreakIsAt(line, |line|);
    assert line[..|line|] == line;
    assert line == "" ==> Strip(line) == "";
  }

  /** The part before a break, and the rest of the line. */
  lemma PiecesAtBreak(line: string, r: nat)
    requires r < |line| && BreakFree(line[..r]) && IsBreak(line[r])
    requires line[r] == '\r' && r + 1 < |line| ==> line[r + 1] != '\n'
    ensures Pieces(line) == NotBlank([line[..r]]) + Pieces(line[r + 1..])
  {
    BreakIsAt(line, r);
    NotBlankCons(line[..r], SplitLines(line[r + 1..]));
  }

  /** Cutting a text at every break is cutting at newlines and then within each line, blank
      lines aside. */
  lemma {:induction false} PiecesOfText(text: string)
    ensures NotBlank(SplitLines(text)) == AllPieces(SplitOn(text, '\n'))
    decreases |text|
  {
    hide SplitLines, SplitOn, Strip, Pieces, NotBlank, AllPieces;
    var r := FindBreak(text);
    if r == |text| {
      assert text[..r] == text;
      OneLine(text);
    } else {
      var next := if text[r] == '\r' && r + 1 < |text| && text[r + 1] == '\n' then r + 2 else r + 1;
      PiecesOfText(text[next..]);
      SplitAtBreak(text, r, next);
      NotBlankCons(text[..r], SplitLines(text[next..]));
      LinesAtBreak(text, r, next);
    }
  }

  lemma OneLine(text: string)
    requires BreakFree(text)
    ensures NotBlank(SplitLines(text)) == AllPieces(SplitOn(text, '\n'))
  {
    SplitOfOne(text, '\n');
    PiecesOfOne(text);
  }

  lemma LinesAtBreak(text: string, r: nat, next: nat)
    requires NextLine(text, r, next)
    ensures AllPieces(SplitOn(text, '\n')) == NotBlank([text[..r]]) + AllPieces(SplitOn(text[next..], '\n'))
  {
    hide SplitLines, SplitOn, Strip, Pieces, NotBlank, AllPieces;
    var after := text[next..];
    NewlineCuts(text);
    if text[r] == '\n' {
      IndexAt(text, '\n', r);
      PiecesOfBreakFree(text[..r]);
      AllPiecesCons(text[..r], SplitOn(after, '\n'));
    } else if next == r + 2 {
      var line := text[..r + 1];
      IndexAt(text, '\n', r + 1);
      assert line[..r] == text[..r] && line[r + 1..] == "";
      PiecesAtBreak(line, r);
      PiecesOfBreakFree("");
      NothingBlank();
      AllPiecesCons(line, SplitOn(after, '\n'));
    } else {
      NewlineCuts(after);
      BreakWithin(text, r);
    }
  }

  lemma NothingBlank()
    ensures NotBlank([""]) == []
  {
  }

  lemma LineWithin(text: string, r: nat, j: nat)
    requires r < |text| && BreakFree(text[..r]) && IsBreak(text[r])
    requires j <= |text[r + 1..]| && '\n' !in text[r + 1..][..j]
    ensures Pieces(text[..r + 1 + j]) == NotBlank([text[..r]]) + Pieces(text[r + 1..][..j])
  {
    var line, more := text[..r + 1 + j], text[r + 1..][..j];
    assert line[..r] == text[..r] && line[r + 1..] == more && line[r] == text[r];
    assert r + 1 < |line| ==> line[r + 1] == more[0];
    hide *;
    PiecesAtBreak(line, r);
  }

  lemma BreakWithin(text: string, r: nat)
    requires r < |text| && BreakFree(text[..r]) && IsBreak(text[r]) && text[r] != '\n'
    ensures AllPieces(SplitOn(text, '\n')) == NotBlank([text[..r]]) + AllPieces(SplitOn(text[r + 1..], '\n'))
  {
    hide *;
    var after := text[r + 1..];
    var j := IndexOf(after, '\n');
    NewlineAfter(text, r);
    LineWithin(text, r, j);
    if j == |after| {
      NewlineCuts(text);
      NewlineCuts(after);
      PiecesOfOne(text);
      PiecesOfOne(after);
      assert text[..|text|] == text && after[..|after|] == after;
    } else {
      PiecesOfFirst(text, r + 1 + j);
      PiecesOfFirst(after, j);
      assert text[r + 1 + j + 1..] == after[j + 1..];
      assert IndexOf(text, '\n') == r + 1 + j;
    }
  }

  lemma PiecesOfFirst(text: string, i: nat)
    requires i < |text| && i == IndexOf(text, '\n')
    ensures AllPieces(SplitOn(text, '\n')) == Pieces(text[..i]) + AllPieces(SplitOn(text[i + 1..], '\n'))
  {
    hide *;
    NewlineCuts(text);
    AllPiecesCons(text[..i], SplitOn(text[i + 1..], '\n'));
  }

  lemma NewlineAfter(text: string, r: nat)
    requires r < |text| && BreakFree(text[..r]) && text[r] != '\n'
    ensures IndexOf(text, '\n') == r + 1 + IndexOf(text[r + 1..], '\n')
  {
    var after := text[r + 1..];
    var j := IndexOf(after, '\n');
    hide IndexOf;
    forall k | 0 <= k < r + 1 + j ensures text[k] != '\n' {
      if k < r {
        assert text[k] == text[..r][k];
      } else if k > r {
        assert text[k] == after[..j][k - r - 1];
      }
    }
    IndexAt(text, '\n', r + 1 + j);
  }
}
