/** How long the standard says the body after a request head is, for a head that is written as
    the standard asks, and where the relay's own answer differs.

    Field lines are those of section 5 of RFC 9112 and of section 5.5 of RFC 9110, the length is
    that of section 6.3 of RFC 9112. */
module HttpFraming {
  import opened Common
  import opened HttpText
  import opened LanIngress
  import opened LanIngressChunks
  import opened LanIngressRewriting

  const COMMA: byte := 44
  const CONNECT_METHOD: Bytes := Ascii("CONNECT")

  /** `name ":" OWS value OWS`. */
  datatype Field = Field(name: Bytes, before: Bytes, value: Bytes, after: Bytes)

  /** A request head: its method, the rest of its request line, and its fields. */
  datatype Head = Head(verb: Bytes, target: Bytes, fields: seq<Field>)

  /** Letters, digits and fifteen marks; no white space, no colon, no comma. */
  predicate TokenByte(b: byte) {
    || 65 <= b <= 90 || 97 <= b <= 122 || 48 <= b <= 57
    || b in {33, 35, 36, 37, 38, 39, 42, 43, 45, 46, 94, 95, 96, 124, 126}
  }

  predicate IsToken(s: Bytes) {
    s != [] && forall i :: 0 <= i < |s| ==> TokenByte(s[i])
  }

  predicate Optional(s: Bytes) {
    forall i :: 0 <= i < |s| ==> s[i] == 32 || s[i] == 9
  }

  /** No control characters but tabs. */
  predicate Visible(s: Bytes) {
    forall i :: 0 <= i < |s| ==> s[i] >= 32 || s[i] == 9
  }

  const WHITE: set<byte> := {9, 10, 11, 12, 13, 32}

  predicate Trimmed(s: Bytes) {
    s != [] ==> s[0] !in WHITE && s[|s| - 1] !in WHITE
  }

  /** The same letter, or the same in the other case. */
  predicate SameLetter(x: byte, y: byte) {
    x == y || (65 <= x <= 90 && y == x + 32) || (65 <= y <= 90 && x == y + 32)
  }

  predicate SameButCase(a: Bytes, b: Bytes) {
    |a| == |b| && forall i :: 0 <= i < |a| ==> SameLetter(a[i], b[i])
  }

  predicate FieldConforms(f: Field) {
    IsToken(f.name) && Optional(f.before) && Optional(f.after) && Visible(f.value) && Trimmed(f.value)
  }

  predicate Conforms(h: Head) {
    IsToken(h.verb) && Visible(h.target) && forall f :: f in h.fields ==> FieldConforms(f)
  }

  function FieldLine(f: Field): Bytes {
    f.name + ([COLON] + (f.before + (f.value + f.after)))
  }

  function FieldLines(fields: seq<Field>): (r: seq<Bytes>)
    ensures |r| == |fields|
  {
    seq(|fields|, i requires 0 <= i < |fields| => FieldLine(fields[i]))
  }

  function RequestLine(h: Head): Bytes {
    h.verb + ([32] + h.target)
  }

  function HeadLines(h: Head): seq<Bytes> {
    [RequestLine(h)] + FieldLines(h.fields) + [[], []]
  }

  function Text(h: Head): Bytes {
    Join(HeadLines(h))
  }

  // ---------------------------------------------------------------- the standard's length

  predicate Called(f: Field, name: Bytes) {
    SameButCase(f.name, name)
  }

  predicate Has(h: Head, name: Bytes) {
    exists f :: f in h.fields && Called(f, name)
  }

  /** The members of a list, without the white space around them. */
  function Members(value: Bytes): (r: seq<Bytes>)
    ensures |r| >= 1
    decreases |value|
  {
    var i := IndexOf(value, COMMA);
    if i == |value| then [Strip(value)] else [Strip(value[..i])] + Members(value[i + 1..])
  }

  function Declared(fields: seq<Field>): seq<Bytes> {
    if fields == [] then []
    else (if Called(fields[0], CONTENT_LENGTH) then [fields[0].value] else []) + Declared(fields[1..])
  }

  function AllMembers(values: seq<Bytes>): seq<Bytes> {
    if values == [] then [] else Members(values[0]) + AllMembers(values[1..])
  }

  predicate IsDigits(s: Bytes) {
    s != [] && forall i :: 0 <= i < |s| ==> IsDigit(s[i])
  }

  /** The length of the body: none where the head opens a tunnel, or the body is delimited
      otherwise, or the declared lengths are not one number. */
  function MessageLength(h: Head): Option<nat> {
    var lengths := AllMembers(Declared(h.fields));
    if h.verb == CONNECT_METHOD || Has(h, TRANSFER_ENCODING) then None
    else if lengths == [] then Some(0)
    else if forall v :: v in lengths ==> IsDigits(v) && v == lengths[0] then
      assert lengths[0] in lengths;
      DigitsHaveAValue(lengths[0]);
      Some(DecimalValue(lengths[0]))
    else None
  }

  lemma {:induction false} DigitsHaveAValue(s: Bytes)
    requires forall i :: 0 <= i < |s| ==> IsDigit(s[i])
    ensures DecimalValue(s) >= 0
  {
    if s != [] {
      DigitsHaveAValue(s[..|s| - 1]);
    }
  }

  // ---------------------------------------------------------------- what the relay reads in it

  /** Any white space counts as such, and nothing else does. */
  lemma SpaceIsWhite(b: byte)
    ensures IsSpace(b) <==> b in WHITE
  {
  }

  lemma {:induction false} StripLeftSkips(a: Bytes, b: Bytes)
    requires forall i :: 0 <= i < |a| ==> a[i] in WHITE
    ensures StripLeft(a + b) == StripLeft(b)
  {
    if a == [] {
      assert a + b == b;
    } else {
      StripLeftSkips(a[1..], b);
      assert (a + b)[0] == a[0] && (a + b)[1..] == a[1..] + b;
    }
  }

  lemma {:induction false} StripRightSkips(a: Bytes, b: Bytes)
    requires forall i :: 0 <= i < |b| ==> b[i] in WHITE
    ensures StripRight(a + b) == StripRight(a)
  {
    if b == [] {
      assert a + b == a;
    } else {
      StripRightSkips(a, b[..|b| - 1]);
      assert (a + b)[|a + b| - 1] == b[|b| - 1] && (a + b)[..|a + b| - 1] == a + b[..|b| - 1];
    }
  }

  lemma ValueIsTrimmed(before: Bytes, value: Bytes, after: Bytes)
    requires forall i :: 0 <= i < |before| ==> before[i] in WHITE
    requires forall i :: 0 <= i < |after| ==> after[i] in WHITE
    requires Trimmed(value)
    ensures Strip(before + (value + after)) == value && Strip(value) == value
  {
    StripLeftSkips(before, value + after);
    if value == [] {
      StripLeftSkips(after, []);
      assert value + after == after && after + [] == after;
    } else {
      assert (value + after)[0] == value[0];
      StripRightSkips(value, after);
    }
  }

  lemma TokenIsPlain(s: Bytes)
    requires IsToken(s)
    ensures COLON !in s && COMMA !in s && Strip(s) == s && forall i :: 0 <= i < |s| ==> s[i] > 32
  {
  }

  lemma ColonAt(name: Bytes, rest: Bytes)
    requires COLON !in name
    ensures var line := name + ([COLON] + rest);
            HasColon(line) && IndexOf(line, COLON) == |name| && line[..|name|] == name && line[|name| + 1..] == rest
  {
    var line := name + ([COLON] + rest);
    var r := IndexOf(line, COLON);
    assert line[|name|] == COLON && line[..|name|] == name;
    assert forall i :: 0 <= i < |name| ==> line[i] == name[i];
    assert forall i :: 0 <= i < r ==> line[i] == line[..r][i];
  }

  /** Names that differ in letter case only are the ones that fold alike. */
  lemma CaseIsFolded(a: Bytes, b: Bytes)
    ensures Lower(a) == Lower(b) <==> SameButCase(a, b)
    ensures Upper(a) == Upper(b) <==> SameButCase(a, b)
  {
    if Lower(a) == Lower(b) {
      assert |a| == |b|;
      forall i | 0 <= i < |a| ensures SameLetter(a[i], b[i]) {
        assert Lower(a)[i] == Lower(b)[i];
      }
    }
    if Upper(a) == Upper(b) {
      assert |a| == |b|;
      forall i | 0 <= i < |a| ensures SameLetter(a[i], b[i]) {
        assert Upper(a)[i] == Upper(b)[i];
      }
    }
    if SameButCase(a, b) {
      forall i | 0 <= i < |a| ensures Lower(a)[i] == Lower(b)[i] && Upper(a)[i] == Upper(b)[i] {
        assert SameLetter(a[i], b[i]);
      }
      assert Lower(a) == Lower(b) && Upper(a) == Upper(b);
    }
  }

  lemma NamesAreLower()
    ensures Lower(TRANSFER_ENCODING) == TRANSFER_ENCODING && Lower(UPGRADE) == UPGRADE
    ensures Lower(CONTENT_LENGTH) == CONTENT_LENGTH && Upper(CONNECT_METHOD) == CONNECT_METHOD
  {
  }

  lemma FieldReads(f: Field)
    requires FieldConforms(f)
    ensures var line := FieldLine(f);
            && HasColon(line) && FieldName(line) == Lower(f.name)
            && Strip(FieldValue(line)) == f.value == Strip(f.value)
            && (Named(line, TRANSFER_ENCODING) <==> Called(f, TRANSFER_ENCODING))
            && (Named(line, UPGRADE) <==> Called(f, UPGRADE))
            && (Named(line, CONTENT_LENGTH) <==> Called(f, CONTENT_LENGTH))
  {
    hide IndexOf, Strip, IsToken, Lower, SameButCase;
    NamesAreLower();
    CaseIsFolded(f.name, TRANSFER_ENCODING);
    CaseIsFolded(f.name, UPGRADE);
    CaseIsFolded(f.name, CONTENT_LENGTH);
    TokenIsPlain(f.name);
    ColonAt(f.name, f.before + (f.value + f.after));
    ValueIsTrimmed(f.before, f.value, f.after);
  }

  lemma NoReturn(line: Bytes)
    requires forall i :: 0 <= i < |line| ==> line[i] != CR
    ensures CrlfFree(line)
  {
  }

  lemma FieldHasNoReturn(f: Field)
    requires FieldConforms(f)
    ensures CrlfFree(FieldLine(f)) && FieldLine(f) != []
  {
    var line := FieldLine(f);
    TokenIsPlain(f.name);
    forall i | 0 <= i < |line| ensures line[i] != CR {
      var b := line[i];
      assert b in f.name || b == COLON || b in f.before || b in f.value || b in f.after;
    }
    NoReturn(line);
  }

  lemma RequestLineHasNoReturn(h: Head)
    requires Conforms(h)
    ensures CrlfFree(RequestLine(h))
  {
    var line := RequestLine(h);
    TokenIsPlain(h.verb);
    forall i | 0 <= i < |line| ensures line[i] != CR {
      assert line[i] in h.verb || line[i] == 32 || line[i] in h.target;
    }
    NoReturn(line);
  }

  lemma HeadLinesAreFree(h: Head)
    requires Conforms(h)
    ensures AllCrlfFree(HeadLines(h)) && AllCrlfFree([[]] + HeadLines(h))
    ensures forall k :: 1 <= k <= |h.fields| ==> HeadLines(h)[k] != []
  {
    hide FieldLine, RequestLine, FieldConforms, CrlfFree;
    var lines := HeadLines(h);
    RequestLineHasNoReturn(h);
    NoReturn([]);
    forall k | 0 <= k < |lines| ensures CrlfFree(lines[k]) && (1 <= k <= |h.fields| ==> lines[k] != []) {
      if 1 <= k <= |h.fields| {
        assert h.fields[k - 1] in h.fields && lines[k] == FieldLine(h.fields[k - 1]);
        FieldHasNoReturn(h.fields[k - 1]);
      }
    }
  }

  /** A conforming head is a complete head, and these are its lines. */
  lemma TextIsAHead(h: Head)
    requires Conforms(h)
    ensures CompleteHead(Text(h)) && Lines(Text(h)) == HeadLines(h)
  {
    hide FieldLine, RequestLine, Lines, Join, FieldConforms, CrlfFree;
    HeadLinesAreFree(h);
    LinesOfJoin(HeadLines(h));
    HeadByLines(Text(h));
  }

  /** Values read off lines, and the values of the fields they come from. */
  predicate ReadAs(lengths: seq<Bytes>, values: seq<Bytes>) {
    && |lengths| == |values|
    && forall i :: 0 <= i < |lengths| ==> Strip(lengths[i]) == values[i] == Strip(values[i])
  }

  lemma ReadAsNext(length: Bytes, value: Bytes, lengths: seq<Bytes>, values: seq<Bytes>)
    requires ReadAs(lengths, values) && Strip(length) == value == Strip(value)
    ensures ReadAs([length] + lengths, [value] + values)
  {
    hide Strip;
  }

  lemma LengthsCons(first: Bytes, rest: seq<Bytes>)
    ensures Lengths([first] + rest)
         == if Named(first, CONTENT_LENGTH) then [FieldValue(first)] + Lengths(rest) else Lengths(rest)
  {
    hide Named, FieldValue;
    assert ([first] + rest)[1..] == rest;
  }

  lemma {:induction false} LengthsOfFields(fields: seq<Field>)
    requires forall f :: f in fields ==> FieldConforms(f)
    ensures ReadAs(Lengths(FieldLines(fields) + [[], []]), Declared(fields))
  {
    hide Strip, FieldLine, FieldConforms, FieldName, FieldValue, SameButCase, IndexOf, Lengths, Named, ReadAs;
    if fields == [] {
      NoLengths();
    } else {
      var first, rest := fields[0], fields[1..];
      assert forall f :: f in rest ==> f in fields;
      LengthsOfFields(rest);
      FieldReads(first);
      var later := FieldLines(rest) + [[], []];
      assert FieldLines(fields) + [[], []] == [FieldLine(first)] + later;
      LengthsCons(FieldLine(first), later);
      if Called(first, CONTENT_LENGTH) {
        ReadAsNext(FieldValue(FieldLine(first)), first.value, Lengths(later), Declared(rest));
      } else {
        assert [] + Declared(rest) == Declared(rest);
      }
    }
  }

  lemma NoLengths()
    ensures ReadAs(Lengths(FieldLines([]) + [[], []]), [])
  {
    var lines: seq<Bytes> := [[], []];
    assert FieldLines([]) + lines == lines;
    assert lines[1..] == [[]] && lines[1..][1..] == [];
  }

  lemma StopsByName(h: Head)
    requires Conforms(h)
    ensures var lines := FieldLines(h.fields) + [[], []];
            (exists k :: 0 <= k < |lines| && StopsReading(lines[k])) <==> Has(h, TRANSFER_ENCODING) || Has(h, UPGRADE)
  {
    hide FieldLine, FieldConforms, FieldName, SameButCase, HasColon;
    var lines := FieldLines(h.fields) + [[], []];
    EmptyHasNoColon();
    forall i | 0 <= i < |h.fields|
      ensures lines[i] == FieldLine(h.fields[i])
      ensures StopsReading(lines[i]) <==> Called(h.fields[i], TRANSFER_ENCODING) || Called(h.fields[i], UPGRADE)
    {
      assert h.fields[i] in h.fields;
      FieldReads(h.fields[i]);
    }
    if f :| f in h.fields && (Called(f, TRANSFER_ENCODING) || Called(f, UPGRADE)) {
      var i :| 0 <= i < |h.fields| && h.fields[i] == f;
      assert StopsReading(lines[i]);
    }
  }

  lemma EmptyHasNoColon()
    ensures !HasColon([])
  {
  }

  lemma UpperAppend(a: Bytes, b: Bytes)
    ensures Upper(a + b) == Upper(a) + Upper(b)
  {
  }

  lemma TunnelWord()
    ensures CONNECT == CONNECT_METHOD + [32] && 32 !in CONNECT_METHOD
  {
  }

  lemma CutAtSpace(word: Bytes, first: Bytes, rest: Bytes)
    requires 32 !in word && 32 !in first
    ensures word + [32] <= first + ([32] + rest) <==> first == word
  {
    var line := first + ([32] + rest);
    assert line[|first|] == 32;
    var n, m := |word|, |first|;
    if word + [32] <= line {
      assert word + [32] == line[..n + 1];
      assert forall i :: 0 <= i < m ==> line[i] == first[i];
      assert forall i :: 0 <= i < n ==> (word + [32])[i] == word[i];
      assert line[n] == 32 && n == m;
      assert first == line[..m] && word == (word + [32])[..n];
    }
  }

  lemma UpperHasNoSpace(s: Bytes)
    requires IsToken(s)
    ensures 32 !in Upper(s)
  {
    TokenIsPlain(s);
  }

  /** The relay takes any letter case for the tunnelling method. */
  lemma TunnelsByPrefix(h: Head)
    requires IsToken(h.verb)
    ensures CONNECT <= Upper(RequestLine(h)) <==> SameButCase(h.verb, CONNECT_METHOD)
  {
    hide IsToken, Ascii;
    NamesAreLower();
    CaseIsFolded(h.verb, CONNECT_METHOD);
    hide SameButCase;
    TunnelWord();
    UpperHasNoSpace(h.verb);
    UpperAppend(h.verb, [32] + h.target);
    UpperAppend([32], h.target);
    assert Upper([32]) == [32];
    hide Upper;
    CutAtSpace(CONNECT_METHOD, Upper(h.verb), Upper(h.target));
  }

  lemma SameNumber(a: Bytes, b: Bytes)
    requires Strip(a) == Strip(b)
    ensures LengthValue(a) == LengthValue(b)
  {
  }

  lemma DigitsArePlain(v: Bytes)
    requires IsDigits(v)
    ensures Strip(v) == v && Grouped(v) && !(v[0] == 43 || v[0] == 45)
  {
    assert StripLeft(v) == v && StripRight(v) == v;
    assert forall i :: 0 <= i < |v| ==> IsDigit(v[i]);
  }

  lemma DigitsAreRead(v: Bytes)
    requires IsDigits(v)
    ensures DecimalValue(v) >= 0
    ensures LengthValue(v) == if |v| <= MAX_INT_DIGITS then Some(DecimalValue(v)) else None
  {
    DigitsHaveAValue(v);
    NothingGrouped(v);
    DigitsArePlain(v);
    PlainNumber(v);
    hide PyInt, IsDigits;
  }

  lemma PlainNumber(v: Bytes)
    requires Strip(v) == v && Grouped(v) && !(v[0] == 43 || v[0] == 45) && DigitsOf(v) == v
    ensures PyInt(v) == if |v| <= MAX_INT_DIGITS then Some(DecimalValue(v)) else None
  {
    hide Strip, Grouped, DigitsOf, DecimalValue;
  }

  lemma NotGrouped(s: Bytes, i: nat)
    requires i < |s| && s[i] == COMMA
    ensures !Grouped(s)
  {
    if Grouped(s) {
      GroupedAt(s, i);
    }
  }

  lemma ListIsRefused(v: Bytes)
    requires COMMA in v && Trimmed(v)
    ensures LengthValue(v).None?
  {
    var i :| 0 <= i < |v| && v[i] == COMMA;
    assert StripLeft(v) == v && StripRight(v) == v;
    hide StripLeft, StripRight, DigitsOf, DecimalValue;
    NotGrouped(v, i);
    if v[0] == 43 || v[0] == 45 {
      NotGrouped(v[1..], i - 1);
    }
  }

  lemma OneMember(v: Bytes)
    ensures COMMA !in v ==> Members(v) == [Strip(v)]
    ensures AllMembers([v]) == Members(v)
  {
    assert [v][1..] == [] && Members(v) + [] == Members(v);
    assert COMMA !in v ==> IndexOf(v, COMMA) == |v|;
  }

  // ---------------------------------------------------------------- where the two agree

  /** What makes the relay stop following a connection and pass it on as it is. */
  predicate LetsGo(h: Head) {
    var lengths := Declared(h.fields);
    || SameButCase(h.verb, CONNECT_METHOD) || Has(h, TRANSFER_ENCODING) || Has(h, UPGRADE)
    || |lengths| > 1 || (|lengths| == 1 && LengthValue(lengths[0]).None?)
  }

  /** On a conforming head the relay stops following exactly there, and otherwise goes by the one
      declared length. */
  lemma FramingOfText(h: Head)
    requires Conforms(h)
    ensures Framing(Text(h))
         == if LetsGo(h) then None
            else if Declared(h.fields) == [] then Some(0)
            else LengthValue(Declared(h.fields)[0])
  {
    hide Lines, FieldLine, RequestLine, Join, FieldConforms, StopsReading, LengthValue, Upper, CompleteHead;
    var fields := FieldLines(h.fields) + [[], []];
    TextIsAHead(h);
    assert HeadLines(h)[0] == RequestLine(h) && HeadLines(h)[1..] == fields;
    TunnelsByPrefix(h);
    StopsByName(h);
    LengthsOfFields(h.fields);
    if Lengths(fields) != [] {
      SameNumber(Lengths(fields)[0], Declared(h.fields)[0]);
    }
  }

  /** Where the relay follows a head, its length is the standard's exactly when none is declared
      or the declared one is digits only. */
  lemma FollowedIsTheStandards(h: Head)
    requires Conforms(h) && Framing(Text(h)).Some?
    ensures Framing(Text(h)) == MessageLength(h)
        <==> Declared(h.fields) == [] || IsDigits(Declared(h.fields)[0])
  {
    hide Text, Framing, LengthValue, Members, IsDigits;
    FramingOfText(h);
    NotATunnel(h);
    LengthsOfFields(h.fields);
    if Declared(h.fields) != [] {
      var v := Declared(h.fields)[0];
      assert Declared(h.fields) == [v];
      DeclaredConforms(h.fields);
      OneMember(v);
      if COMMA in v {
        ListIsRefused(v);
      } else if IsDigits(v) {
        DigitsAreRead(v);
      }
    }
  }

  lemma NotATunnel(h: Head)
    requires !LetsGo(h)
    ensures h.verb != CONNECT_METHOD
  {
    assert Upper(CONNECT_METHOD) == CONNECT_METHOD;
  }

  lemma {:induction false} DeclaredConforms(fields: seq<Field>)
    requires forall f :: f in fields ==> FieldConforms(f)
    ensures forall v :: v in Declared(fields) ==> Trimmed(v)
  {
    hide SameButCase, IsToken, Visible, Optional;
    if fields != [] {
      assert fields[0] in fields && forall f :: f in fields[1..] ==> f in fields;
      DeclaredConforms(fields[1..]);
    }
  }

  /** Where the standard tells a length, the relay goes by it exactly when the request does not
      ask for a tunnel in any letter case or an upgrade, and declares at most one length, in as
      many digits as the interpreter reads. */
  lemma StandardIsFollowedIff(h: Head)
    requires Conforms(h) && MessageLength(h).Some?
    ensures Framing(Text(h)) == MessageLength(h)
        <==> && !SameButCase(h.verb, CONNECT_METHOD) && !Has(h, UPGRADE) && |Declared(h.fields)| <= 1
             && (Declared(h.fields) != [] ==>
                   IsDigits(Declared(h.fields)[0]) && |Declared(h.fields)[0]| <= MAX_INT_DIGITS)
  {
    hide Text, Framing, LengthValue, Members, IsDigits, Has;
    FramingOfText(h);
    if Framing(Text(h)).Some? {
      FollowedIsTheStandards(h);
    }
    if Declared(h.fields) != [] && IsDigits(Declared(h.fields)[0]) {
      DigitsAreRead(Declared(h.fields)[0]);
    }
  }

  /** So such a request, with a body of the standard's length, is one the relay follows. */
  lemma StandardRequestIsFollowed(h: Head, body: Bytes)
    requires Conforms(h) && MessageLength(h) == Some(|body|)
    requires !SameButCase(h.verb, CONNECT_METHOD) && !Has(h, UPGRADE) && |Declared(h.fields)| <= 1
    requires Declared(h.fields) != [] ==>
               IsDigits(Declared(h.fields)[0]) && |Declared(h.fields)[0]| <= MAX_INT_DIGITS
    ensures Request(Text(h), body).Followed()
  {
    hide Text, Framing;
    TextIsAHead(h);
    StandardIsFollowedIff(h);
  }

  // ---------------------------------------------------------------- what the service receives

  const OBSERVED_NAME: Bytes := Ascii("Eidolon-Observed-Host")

  /** The fields that do not bear the name the relay adds, in any letter case. */
  function Others(fields: seq<Field>): seq<Field> {
    if fields == [] then []
    else (if SameButCase(fields[0].name, OBSERVED_NAME) then [] else [fields[0]]) + Others(fields[1..])
  }

  /** The head as the service behind the relay gets it. */
  function Annotated(h: Head, header: Bytes): Bytes {
    Join([RequestLine(h)] + FieldLines(Others(h.fields)) + [header, [], []])
  }

  lemma ObservedName()
    ensures OBSERVED_FIELD == Lower(OBSERVED_NAME)
  {
    assert OBSERVED_HOST_HEADER == OBSERVED_NAME;
  }

  lemma CopyByName(f: Field)
    requires FieldConforms(f)
    ensures ClientCopy(FieldLine(f)) <==> SameButCase(f.name, OBSERVED_NAME)
  {
    hide SameButCase, Lower, FieldConforms, FieldName;
    FieldReads(f);
    ObservedName();
    CaseIsFolded(f.name, OBSERVED_NAME);
  }

  lemma {:induction false} CopiesByName(fields: seq<Field>)
    requires forall f :: f in fields ==> FieldConforms(f)
    ensures WithoutCopies(FieldLines(fields) + [[], []]) == FieldLines(Others(fields)) + [[], []]
    ensures WithoutCopies(FieldLines(fields)) == FieldLines(Others(fields))
  {
    hide SameButCase, FieldConforms, FieldLine, ClientCopy;
    if fields == [] {
      EndIsNoCopy();
      assert FieldLines([]) + [[], []] == [[], []];
    } else {
      var first, rest := fields[0], fields[1..];
      assert forall f :: f in rest ==> f in fields;
      CopiesByName(rest);
      CopyByName(first);
      var lines, later := FieldLines(fields), FieldLines(rest);
      assert lines[0] == FieldLine(first) && lines[1..] == later && lines == [FieldLine(first)] + later;
      assert (lines + [[], []])[1..] == later + [[], []];
      var others := if SameButCase(first.name, OBSERVED_NAME) then [] else [first];
      OneMoreLine(others, Others(rest));
      assert FieldLines(others) == if SameButCase(first.name, OBSERVED_NAME) then [] else [FieldLine(first)];
      assert FieldLines(others) + FieldLines(Others(rest)) + [[], []]
          == FieldLines(others) + (FieldLines(Others(rest)) + [[], []]);
    }
  }

  lemma OneMoreLine(a: seq<Field>, b: seq<Field>)
    ensures FieldLines(a + b) == FieldLines(a) + FieldLines(b)
  {
    hide FieldLine;
  }

  lemma EndIsNoCopy()
    ensures WithoutCopies([[], []]) == [[], []] && WithoutCopies([]) == []
  {
    var end: seq<Bytes> := [[], []];
    assert end[1..] == [[]] && end[1..][1..] == [];
    assert FieldName([]) == [] != OBSERVED_FIELD;
  }

  /** What is sent on for a conforming head: the request line, every field but those named like
      the one the relay adds, in their order and byte for byte, then the relay's line. */
  lemma RewrittenText(h: Head, header: Bytes)
    requires Conforms(h) && CrlfFree(header)
    ensures CompleteHead(Text(h)) && WithObservedHost(Text(h), header) == Annotated(h, header)
  {
    hide Lines, FieldLine, RequestLine, Join, FieldConforms, CrlfFree, CompleteHead, WithoutCopies, SameButCase;
    TextIsAHead(h);
    RewrittenShape(Text(h), header);
    StartAndFieldsOf(Text(h));
    var lines := StartAndFields(Text(h));
    assert lines == [RequestLine(h)] + FieldLines(h.fields) by {
      assert lines + [[], []] == [RequestLine(h)] + FieldLines(h.fields) + [[], []];
      assert lines == (lines + [[], []])[..|lines|];
    }
    assert lines[1..] == FieldLines(h.fields);
    CopiesByName(h.fields);
  }

  lemma StartAndFieldsOf(head: Bytes)
    requires CompleteHead(head)
    ensures Lines(head) == StartAndFields(head) + [[], []]
  {
    LanIngressRewriting.HeadLines(head);
  }

  /** A conforming request and its body. */
  datatype Message = Message(head: Head, body: Bytes) {
    /** One whose framing the standard tells and the relay follows. */
    ghost predicate Framed() {
      && Conforms(head) && MessageLength(head) == Some(|body|) && |Text(head)| <= MAX_HEAD_BYTES + 1
      && !SameButCase(head.verb, CONNECT_METHOD) && !Has(head, UPGRADE) && |Declared(head.fields)| <= 1
      && (Declared(head.fields) != [] ==>
            IsDigits(Declared(head.fields)[0]) && |Declared(head.fields)[0]| <= MAX_INT_DIGITS)
    }
  }

  function SentBy(messages: seq<Message>): Bytes {
    if messages == [] then [] else Text(messages[0].head) + messages[0].body + SentBy(messages[1..])
  }

  function ReceivedOf(messages: seq<Message>, header: Bytes): Bytes {
    if messages == [] then []
    else Annotated(messages[0].head, header) + messages[0].body + ReceivedOf(messages[1..], header)
  }

  function Requests(messages: seq<Message>): (r: seq<Request>)
    ensures |r| == |messages|
  {
    seq(|messages|, i requires 0 <= i < |messages| => Request(Text(messages[i].head), messages[i].body))
  }

  lemma FramedIsFollowed(m: Message)
    requires m.Framed()
    ensures Request(Text(m.head), m.body).Followed()
  {
    StandardRequestIsFollowed(m.head, m.body);
  }

  lemma {:induction false} WiresAgree(messages: seq<Message>, header: Bytes)
    requires (forall k :: 0 <= k < |messages| ==> messages[k].Framed()) && CrlfFree(header)
    ensures forall k :: 0 <= k < |messages| ==> Requests(messages)[k].Followed()
    ensures Wire(Requests(messages)) == SentBy(messages)
    ensures Wire(Observed(header, Requests(messages))) == ReceivedOf(messages, header)
    decreases |messages|
  {
    hide Text, Annotated, Conforms, CrlfFree, IsDigits, WithObservedHost;
    forall k | 0 <= k < |messages| ensures Requests(messages)[k].Followed() {
      FramedIsFollowed(messages[k]);
    }
    if messages != [] {
      var m, rest := messages[0], messages[1..];
      WiresAgree(rest, header);
      assert Requests(messages)[1..] == Requests(rest);
      RewrittenText(m.head, header);
      var observed := Observed(header, Requests(messages));
      assert observed[1..] == Observed(header, Requests(rest));
    }
  }

  /** However the network cuts them, conforming requests of the standard's framing reach the
      service one by one, each with all its fields but those named like the relay's, the relay's
      line, and its own body. */
  lemma StandardRequestsArrive(header: Bytes, messages: seq<Message>, chunks: seq<Bytes>)
    requires (forall k :: 0 <= k < |messages| ==> messages[k].Framed()) && CrlfFree(header)
    requires Flatten(chunks) == SentBy(messages)
    ensures FeedAll(header, START, chunks) == Fed(ReceivedOf(messages, header), START)
  {
    hide Text, Annotated, Conforms, CrlfFree, IsDigits, FeedAll, Wire, SentBy, ReceivedOf;
    WiresAgree(messages, header);
    forall k | 0 <= k < |messages| ensures |Requests(messages)[k].head| <= MAX_HEAD_BYTES + 1 {
      assert messages[k].Framed();
    }
    RequestsArrive(header, Requests(messages), chunks);
  }

  // ---------------------------------------------------------------- where the relay is misled

  lemma {:induction false} StripRightKeeps(s: Bytes, k: nat)
    requires k < |s| && !IsSpace(s[k])
    ensures StripRight(s) <= s && |StripRight(s)| > k
  {
    if IsSpace(s[|s| - 1]) {
      StripRightKeeps(s[..|s| - 1], k);
    }
  }

  lemma KnownNames()
    ensures |TRANSFER_ENCODING| > 3 && TRANSFER_ENCODING[0] == 116 && |UPGRADE| > 3 && UPGRADE[0] == 117
    ensures |CONTENT_LENGTH| > 3 && CONTENT_LENGTH[3] == 116
  {
  }

  lemma TunnelName(name: Bytes)
    requires CONNECT_METHOD <= name
    ensures var read := Lower(Strip(name)); |read| > 3 && read[0] == 99 && read[3] == 110
  {
    assert |CONNECT_METHOD| == 7 && CONNECT_METHOD[0] == 67 && CONNECT_METHOD[3] == 78 && CONNECT_METHOD[6] == 84;
    assert name[0] == 67 && name[3] == 78 && name[6] == 84 by {
      assert name[..7] == CONNECT_METHOD;
    }
    hide Ascii;
    StripRightKeeps(name, 6);
    assert StripLeft(name) == name;
  }

  /** A line that asks for a tunnel does not read as a field the relay knows. */
  lemma TunnelIsNoField(h: Head)
    requires Conforms(h) && h.verb == CONNECT_METHOD
    ensures !StopsReading(RequestLine(h)) && !Named(RequestLine(h), CONTENT_LENGTH)
  {
    KnownNames();
    TokenIsPlain(h.verb);
    hide Ascii, IsToken, Visible, FieldConforms, Lower, Strip;
    var line := RequestLine(h);
    if HasColon(line) {
      var j := IndexOf(line, COLON);
      assert line[j] == COLON;
      assert forall i :: 0 <= i < |h.verb| ==> line[i] == h.verb[i];
      assert h.verb <= line[..j];
      TunnelName(line[..j]);
    }
  }

  lemma TunnelIsLetGo(h: Head)
    requires h.verb == CONNECT_METHOD
    ensures LetsGo(h)
  {
    assert Upper(CONNECT_METHOD) == CONNECT_METHOD;
  }

  lemma EmptyIsNoTunnel()
    ensures !(CONNECT <= Upper([]))
  {
  }

  /** An empty line before it, which a server may skip by section 2.2 of RFC 9112, hides a request
      for a tunnel: the relay would take what is sent through it for requests. */
  lemma EmptyLineHidesATunnel(h: Head)
    requires Conforms(h) && h.verb == CONNECT_METHOD
    requires !Has(h, TRANSFER_ENCODING) && !Has(h, UPGRADE) && Declared(h.fields) == []
    ensures Framing(Text(h)).None? && CompleteHead(CRLF + Text(h)) && Framing(CRLF + Text(h)) == Some(0)
  {
    hide Lines, Framing, Conforms, StopsReading, Has, CompleteHead, Declared, Join, LetsGo;
    FramingOfText(h);
    TunnelIsLetGo(h);
    LinesAfterEmpty(h);
    FramingAfterEmpty(h);
    FramingByLines(CRLF + Text(h));
  }

  lemma FramingByLines(head: Bytes)
    ensures Framing(head) == FramingOfLines(Lines(head))
  {
  }

  lemma LinesAfterEmpty(h: Head)
    requires Conforms(h)
    ensures CompleteHead(CRLF + Text(h)) && Lines(CRLF + Text(h)) == [[]] + HeadLines(h)
  {
    hide Lines, FieldLine, RequestLine, FieldConforms, CrlfFree, Join;
    var lines := [[]] + HeadLines(h);
    HeadLinesAreFree(h);
    JoinCons([], HeadLines(h));
    assert [] + CRLF + Text(h) == CRLF + Text(h);
    LinesOfJoin(lines);
    HeadByLines(Join(lines));
    RequestLineIsNotEmpty(h);
  }

  lemma RequestLineIsNotEmpty(h: Head)
    ensures RequestLine(h) != []
  {
  }

  lemma FramingAfterEmpty(h: Head)
    requires Conforms(h) && h.verb == CONNECT_METHOD
    requires !Has(h, TRANSFER_ENCODING) && !Has(h, UPGRADE) && Declared(h.fields) == []
    ensures FramingOfLines([[]] + HeadLines(h)) == Some(0)
  {
    hide FieldLine, RequestLine, FieldConforms, StopsReading, LengthValue, Upper, Named, Has, Declared;
    var fields, lines := FieldLines(h.fields) + [[], []], [[]] + HeadLines(h);
    assert lines[1..] == HeadLines(h) == [RequestLine(h)] + fields;
    TunnelIsNoField(h);
    StopsByName(h);
    LengthsOfFields(h.fields);
    LengthsCons(RequestLine(h), fields);
    EmptyIsNoTunnel();
    forall k | 0 <= k < |HeadLines(h)| ensures !StopsReading(HeadLines(h)[k]) {
      if k > 0 {
        assert HeadLines(h)[k] == fields[k - 1];
      }
    }
  }

  const GET_METHOD: Bytes := [71, 69, 84]

  /** A plain GET with a target of this many letters. */
  function LongRequest(n: nat): Head {
    Head(GET_METHOD, seq(n, _ => 97), [])
  }

  /** Such a request of 64 KiB conforms and is one whose framing the relay knows, and it does not
      fit: some way of cutting a stream that starts with it changes what is sent on. */
  lemma LongRequestDoesNotFit(header: Bytes, n: nat)
    requires n >= MAX_HEAD_BYTES
    ensures var h := LongRequest(n);
            && Conforms(h) && MessageLength(h) == Some(0) && Framing(Text(h)) == Some(0)
            && !HeadsFit(header, Text(h), 0)
            && exists a, b :: a + b <= Text(h) && !Agree(header, a, b, 0)
  {
    hide Lines, Framing, HeadsFit, Agree;
    var h := LongRequest(n);
    GetIsNoTunnel();
    FramingOfText(h);
    TextIsAHead(h);
    JoinCons(RequestLine(h), [[], []]);
    assert HeadLines(h) == [RequestLine(h)] + [[], []];
    FitsHead(header, Text(h), []);
    assert Text(h) + [] == Text(h);
    CutsAgreeIffHeadsFit(header, Text(h));
  }

  lemma GetIsNoTunnel()
    ensures IsToken(GET_METHOD) && GET_METHOD != CONNECT_METHOD && Upper(GET_METHOD) != CONNECT_METHOD
  {
    assert |CONNECT_METHOD| == 7;
  }
}
