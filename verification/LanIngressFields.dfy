/** What the relay reads in the lines of any head, written as the standard asks or not. */
module LanIngressFields {
  import opened Common
  import opened HttpFraming
  import opened HttpText
  import opened LanIngress

  ghost predicate White(s: Bytes) {
    forall i :: 0 <= i < |s| ==> s[i] in WHITE
  }

  /** A line that starts with a word, with white space around it, and then ends or goes on after
      a colon. */
  ghost predicate Opens(line: Bytes, before: Bytes, word: Bytes, after: Bytes, rest: Bytes) {
    && line == before + (word + after) + rest && White(before) && White(after) && Trimmed(word) && COLON !in word
    && (rest == [] || rest[0] == COLON)
  }

  /** A field of this name, in any letter case, with what follows its colon. */
  ghost predicate Carries(line: Bytes, name: Bytes, value: Bytes) {
    exists before, word, after :: Opens(line, before, word, after, [COLON] + value) && SameButCase(word, name)
  }

  /** The observed-host field, in any letter case, with or without a colon. */
  ghost predicate IsCopy(line: Bytes) {
    exists before, word, after, rest :: Opens(line, before, word, after, rest) && SameButCase(word, OBSERVED_NAME)
  }

  lemma {:induction false} LeftIsWhite(s: Bytes) returns (before: Bytes)
    ensures s == before + StripLeft(s) && White(before)
    ensures StripLeft(s) != [] ==> StripLeft(s)[0] !in WHITE
  {
    before := [];
    if s != [] && IsSpace(s[0]) {
      var more := LeftIsWhite(s[1..]);
      before := [s[0]] + more;
    }
  }

  lemma {:induction false} RightIsWhite(s: Bytes) returns (after: Bytes)
    ensures s == StripRight(s) + after && White(after)
    ensures StripRight(s) != [] ==> StripRight(s)[|StripRight(s)| - 1] !in WHITE
    decreases |s|
  {
    after := [];
    if s != [] && IsSpace(s[|s| - 1]) {
      var more := RightIsWhite(s[..|s| - 1]);
      after := more + [s[|s| - 1]];
      OneMoreAfter(s, StripRight(s), more);
    }
  }

  lemma OneMoreAfter(s: Bytes, inner: Bytes, more: Bytes)
    requires s != [] && s[..|s| - 1] == inner + more
    ensures s == inner + (more + [s[|s| - 1]])
  {
    assert s == s[..|s| - 1] + [s[|s| - 1]];
  }

  /** Each line opens with one word. */
  lemma OpeningOf(line: Bytes) returns (before: Bytes, word: Bytes, after: Bytes, rest: Bytes)
    ensures Opens(line, before, word, after, rest) && FieldName(line) == Lower(word)
    ensures rest == if HasColon(line) then [COLON] + FieldValue(line) else []
  {
    hide StripLeft, StripRight, IndexOf, Lower;
    var i := IndexOf(line, COLON);
    var name := line[..i];
    rest := line[i..];
    before := LeftIsWhite(name);
    after := RightIsWhite(StripLeft(name));
    word := Strip(name);
    assert name == before + (word + after);
    assert word != [] ==> word[0] == StripLeft(name)[0];
    forall b | b in word ensures b in name {}
    assert line == name + rest;
    assert HasColon(line) <==> i < |line|;
  }

  /** There is no other way to cut it. */
  lemma OpeningIs(line: Bytes, before: Bytes, word: Bytes, after: Bytes, rest: Bytes)
    requires Opens(line, before, word, after, rest)
    ensures FieldName(line) == Lower(word)
    ensures HasColon(line) <==> rest != []
    ensures rest != [] ==> FieldValue(line) == rest[1..]
  {
    hide Strip, StripLeft, StripRight, IndexOf, Lower;
    var name := before + (word + after);
    ValueIsTrimmed(before, word, after);
    assert COLON !in name;
    if rest == [] {
      assert line == name;
      NoColon(line);
    } else {
      assert rest == [COLON] + rest[1..];
      ColonAt(name, rest[1..]);
    }
  }

  lemma NoColon(line: Bytes)
    requires COLON !in line
    ensures IndexOf(line, COLON) == |line| && line[..|line|] == line
  {
  }

  lemma SameButCaseOnly(a: Bytes, word: Bytes, name: Bytes)
    requires Lower(a) == Lower(word)
    ensures SameButCase(a, name) <==> SameButCase(word, name)
  {
    CaseIsFolded(a, name);
    CaseIsFolded(word, name);
  }

  /** Dropped from any head are exactly the lines that open with the observed-host name. */
  lemma CopyIff(line: Bytes)
    ensures ClientCopy(line) <==> IsCopy(line)
  {
    hide FieldName, FieldValue, Opens, SameButCase, Lower;
    var before, word, after, rest := OpeningOf(line);
    CaseIsFolded(word, OBSERVED_NAME);
    ObservedName();
    if b, w, a, r :| Opens(line, b, w, a, r) && SameButCase(w, OBSERVED_NAME) {
      OpeningIs(line, b, w, a, r);
      CaseIsFolded(w, OBSERVED_NAME);
    }
  }

  /** A line has a name to the relay exactly when it carries a field of that name. */
  lemma CarriesIff(line: Bytes, name: Bytes, value: Bytes)
    requires Lower(name) == name
    ensures Named(line, name) && FieldValue(line) == value <==> Carries(line, name, value)
  {
    hide FieldName, FieldValue, Opens, SameButCase, Lower, HasColon;
    if Named(line, name) && FieldValue(line) == value {
      var before, word, after, rest := OpeningOf(line);
      CaseIsFolded(word, name);
    }
    if before, word, after :| Opens(line, before, word, after, [COLON] + value) && SameButCase(word, name) {
      OpeningIs(line, before, word, after, [COLON] + value);
      CaseIsFolded(word, name);
      assert ([COLON] + value)[1..] == value;
    }
  }

  // ---------------------------------------------------------------- the framing of any head

  /** The first line asks for a tunnel, in any letter case. */
  ghost predicate AsksForATunnel(line: Bytes) {
    |line| >= 8 && SameButCase(line[..8], Ascii("CONNECT "))
  }

  /** One line, and no other, declares a length. */
  ghost predicate DeclaresOnce(fields: seq<Bytes>, k: nat, value: Bytes) {
    && k < |fields| && Carries(fields[k], CONTENT_LENGTH, value)
    && forall j, w :: 0 <= j < |fields| && Carries(fields[j], CONTENT_LENGTH, w) ==> j == k
  }

  /** The framing of any head: no tunnel is asked for, no line is a transfer coding or an
      upgrade, and no line declares a length, or one does, which `int` reads as this one. */
  ghost predicate Frames(lines: seq<Bytes>, n: nat)
    requires |lines| >= 1
  {
    var fields := lines[1..];
    && !AsksForATunnel(lines[0])
    && (forall k, v :: 0 <= k < |fields| ==>
          !Carries(fields[k], TRANSFER_ENCODING, v) && !Carries(fields[k], UPGRADE, v))
    && (|| (n == 0 && forall k, v :: 0 <= k < |fields| ==> !Carries(fields[k], CONTENT_LENGTH, v))
        || exists k, v :: DeclaresOnce(fields, k, v) && PyInt(v) == Some(n))
  }

  lemma TunnelIff(line: Bytes)
    ensures CONNECT <= Upper(line) <==> AsksForATunnel(line)
  {
    hide SameButCase;
    assert |CONNECT| == 8 && Upper(CONNECT) == CONNECT;
    if |line| >= 8 {
      assert Upper(line[..8]) == Upper(line)[..8];
      CaseIsFolded(line[..8], CONNECT);
      assert CONNECT <= Upper(line) <==> Upper(line)[..8] == CONNECT;
    }
  }

  lemma {:induction false} LengthsAre(fields: seq<Bytes>)
    ensures Lengths(fields) == [] <==> forall k :: 0 <= k < |fields| ==> !Named(fields[k], CONTENT_LENGTH)
  {
    hide Named, FieldValue;
    if fields != [] {
      LengthsAre(fields[1..]);
      assert forall k :: 0 < k < |fields| ==> fields[k] == fields[1..][k - 1];
    }
  }

  lemma {:induction false} OneLengthAt(fields: seq<Bytes>) returns (k: nat)
    requires |Lengths(fields)| == 1
    ensures k < |fields| && Named(fields[k], CONTENT_LENGTH) && FieldValue(fields[k]) == Lengths(fields)[0]
    ensures forall j :: 0 <= j < |fields| && Named(fields[j], CONTENT_LENGTH) ==> j == k
  {
    hide Named, FieldValue;
    LengthsAre(fields[1..]);
    assert forall j :: 0 < j < |fields| ==> fields[j] == fields[1..][j - 1];
    if Named(fields[0], CONTENT_LENGTH) {
      k := 0;
    } else {
      var l := OneLengthAt(fields[1..]);
      k := l + 1;
    }
  }

  lemma OnlyLength(fields: seq<Bytes>, k: nat)
    requires k < |fields| && Named(fields[k], CONTENT_LENGTH)
    requires forall j :: 0 <= j < |fields| && Named(fields[j], CONTENT_LENGTH) ==> j == k
    ensures Lengths(fields) == [FieldValue(fields[k])]
  {
    hide Named, FieldValue, Lengths;
    var before, after := fields[..k], fields[k + 1..];
    assert Lengths(before) == [] by {
      LengthsAre(before);
    }
    assert Lengths(after) == [] by {
      LengthsAre(after);
      assert forall j :: 0 <= j < |after| ==> after[j] == fields[j + k + 1];
    }
    LengthsStep(fields, k);
    assert fields == fields[..k + 1] + after;
    LengthsAppend(fields[..k + 1], after);
  }

  /** What the relay goes by, for every head. */
  lemma FramingIff(head: Bytes, n: nat)
    ensures Framing(head) == Some(n) <==> Frames(Lines(head), n)
  {
    hide Named, FieldValue, Lengths, Carries, AsksForATunnel, Lines, PyInt, Upper;
    var lines := Lines(head);
    var fields := lines[1..];
    NamesAreLower();
    TunnelIff(lines[0]);
    forall k, v, name | 0 <= k < |fields| && Lower(name) == name
      ensures Named(fields[k], name) && FieldValue(fields[k]) == v <==> Carries(fields[k], name, v)
    {
      CarriesIff(fields[k], name, v);
    }
    assert forall k, name :: 0 <= k < |fields| && Lower(name) == name && Named(fields[k], name) ==>
        Carries(fields[k], name, FieldValue(fields[k]));
    LengthsAre(fields);
    if |Lengths(fields)| == 1 {
      var k := OneLengthAt(fields);
      assert DeclaresOnce(fields, k, Lengths(fields)[0]);
    }
    if k, v :| DeclaresOnce(fields, k, v) && PyInt(v) == Some(n) {
      forall j | 0 <= j < |fields| && Named(fields[j], CONTENT_LENGTH) ensures j == k {
        assert Carries(fields[j], CONTENT_LENGTH, FieldValue(fields[j]));
      }
      OnlyLength(fields, k);
    }
  }
}
