/** Rewriting a head changes where it says it arrived and nothing about its body. */
module LanIngressRewriting {
  import opened Common
  import opened HttpText
  import opened LanIngress
  import opened LanIngressChunks

  /** A header line naming the observation, as the ingress writes one per connection. */
  ghost predicate ObservedHeader(header: Bytes) {
    header != [] && CrlfFree(header) && ClientCopy(header)
  }

  /** The line the ingress builds from an address is such a header. */
  lemma HeaderNamesTheObservation(address: Bytes)
    requires CR !in address
    ensures ObservedHeader(OBSERVED_HOST_HEADER + [COLON, 32] + address)
  {
    var name, line := OBSERVED_HOST_HEADER, OBSERVED_HOST_HEADER + [COLON, 32] + address;
    NameIsPlain();
    hide Strip, Lower;
    assert CrlfFree(line) by {
      assert forall i :: |name| + 2 <= i < |line| ==> line[i] == address[i - |name| - 2];
    }
    assert line[..|name|] == name;
    ColonAt(line, |name|);
  }

  lemma NameIsPlain()
    ensures CR !in OBSERVED_HOST_HEADER && COLON !in OBSERVED_HOST_HEADER
    ensures Strip(OBSERVED_HOST_HEADER) == OBSERVED_HOST_HEADER
  {
    var name := OBSERVED_HOST_HEADER;
    assert StripLeft(name) == name && StripRight(name) == name;
  }

  lemma ColonAt(line: Bytes, i: nat)
    requires i < |line| && line[i] == COLON && COLON !in line[..i]
    ensures IndexOf(line, COLON) == i
  {
    var r := IndexOf(line, COLON);
    assert forall k :: 0 <= k < i ==> line[k] == line[..i][k] != COLON;
    assert forall k :: 0 <= k < r ==> line[k] == line[..r][k] != COLON;
  }

  // ---------------------------------------------------------------- the lines of a rewritten head

  function RewrittenLines(head: Bytes, header: Bytes): seq<Bytes>
    requires CompleteHead(head)
  {
    var lines := StartAndFields(head);
    [lines[0]] + WithoutCopies(lines[1..]) + [header, [], []]
  }

  lemma {:induction false} KeptAreFields(fields: seq<Bytes>)
    ensures forall line :: line in WithoutCopies(fields) <==> line in fields && !ClientCopy(line)
  {
    if fields != [] {
      KeptAreFields(fields[1..]);
      assert fields == [fields[0]] + fields[1..];
    }
  }

  lemma HeadLines(head: Bytes)
    requires CompleteHead(head)
    ensures Lines(head) == StartAndFields(head) + [[], []]
    ensures forall line :: line in StartAndFields(head) ==> CrlfFree(line)
    ensures [] !in StartAndFields(head)[1..]
  {
    hide CompleteHead, Lines, Join, CrlfFree;
    var lines := Lines(head);
    HeadDecomposes(head);
    HeadByLines(head);
    JoinOfLines(head);
    assert StartAndFields(head) == lines[..|lines| - 2];
  }

  lemma RewrittenShape(head: Bytes, header: Bytes)
    requires CompleteHead(head) && CrlfFree(header)
    ensures WithObservedHost(head, header) == Join(RewrittenLines(head, header))
    ensures Lines(WithObservedHost(head, header)) == RewrittenLines(head, header)
    ensures header != [] ==> HeadShape(RewrittenLines(head, header))
  {
    hide Lines, CompleteHead, StartAndFields, WithoutCopies, ClientCopy, IsCrlf;
    HeadLines(head);
    var lines := StartAndFields(head);
    var kept := WithoutCopies(lines[1..]);
    KeptAreFields(lines[1..]);
    var front, end := [lines[0]] + kept, [header, [], []];
    JoinAppend(front, end);
    JoinOfEnd(header);
    assert WithObservedHost(head, header) == Join(front) + CRLF + (header + CRLF + CRLF);
    assert lines[0] in lines;
    assert forall line :: line in kept ==> line in lines && line != [];
    EmptyLine();
    LinesOfJoin(front + end);
  }

  lemma EmptyLine()
    ensures CrlfFree([]) && !HasColon([])
  {
  }

  lemma CopyIsDropped(header: Bytes)
    requires ClientCopy(header)
    ensures WithoutCopies([header]) == []
  {
  }

  lemma JoinOfEnd(header: Bytes)
    ensures Join([header, [], []]) == header + CRLF + CRLF
  {
    assert [header, [], []][1..] == [[], []];
    var end: seq<Bytes> := [[], []];
    assert end[1..] == [[]];
    assert Join(end) == CRLF;
  }

  /** A rewritten head is one head: its first blank line is still at its end. */
  lemma RewrittenIsComplete(head: Bytes, header: Bytes)
    requires CompleteHead(head) && ObservedHeader(header)
    ensures CompleteHead(WithObservedHost(head, header))
  {
    RewrittenShape(head, header);
    HeadByLines(WithObservedHost(head, header));
  }

  lemma CopyFramesNothing(line: Bytes)
    ensures ClientCopy(line) ==> !Named(line, CONTENT_LENGTH) && !StopsReading(line)
  {
  }

  lemma {:induction false} CopiesHoldNoLength(fields: seq<Bytes>)
    ensures Lengths(WithoutCopies(fields)) == Lengths(fields)
  {
    hide ClientCopy, Named;
    if fields != [] {
      var kept := WithoutCopies(fields[1..]);
      CopiesHoldNoLength(fields[1..]);
      CopyFramesNothing(fields[0]);
      if ClientCopy(fields[0]) {
        assert [] + kept == kept && [] + Lengths(fields[1..]) == Lengths(fields[1..]);
      } else {
        assert WithoutCopies(fields) == [fields[0]] + kept && ([fields[0]] + kept)[1..] == kept;
      }
    }
  }

  lemma CopiesDoNotFrame(start: Bytes, fields: seq<Bytes>)
    ensures FramingOfLines([start] + WithoutCopies(fields)) == FramingOfLines([start] + fields)
  {
    hide ClientCopy, Named, StopsReading, WithoutCopies, Lengths, LengthValue, Upper;
    var kept := WithoutCopies(fields);
    assert ([start] + kept)[1..] == kept && ([start] + fields)[1..] == fields;
    CopiesHoldNoLength(fields);
    KeptAreFields(fields);
    forall k | 0 <= k < |fields| && StopsReading(fields[k]) ensures fields[k] in kept {
      CopyFramesNothing(fields[k]);
    }
    assert forall k :: 0 <= k < |kept| ==> kept[k] in fields;
  }

  /** What the field section says about the body, for a head already split in lines. */
  lemma FramingSkips(start: Bytes, fields: seq<Bytes>, extra: seq<Bytes>)
    requires forall k :: 0 <= k < |extra| ==> !Named(extra[k], CONTENT_LENGTH) && !StopsReading(extra[k])
    ensures FramingOfLines([start] + fields + extra) == FramingOfLines([start] + fields)
  {
    var long, short := [start] + fields + extra, [start] + fields;
    assert long[1..] == fields + extra && short[1..] == fields;
    LengthsAppend(fields, extra);
    NoLengths(extra);
    assert forall k :: 0 <= k < |fields| ==> (fields + extra)[k] == fields[k];
    assert forall k :: |fields| <= k < |fields + extra| ==> (fields + extra)[k] == extra[k - |fields|];
  }

  lemma {:induction false} NoLengths(extra: seq<Bytes>)
    requires forall k :: 0 <= k < |extra| ==> !Named(extra[k], CONTENT_LENGTH)
    ensures Lengths(extra) == []
  {
    if extra != [] {
      NoLengths(extra[1..]);
    }
  }

  /** The rewritten head frames the same body as the head the client sent. */
  lemma RewritingKeepsFraming(head: Bytes, header: Bytes)
    requires CompleteHead(head) && ObservedHeader(header)
    ensures Framing(WithObservedHost(head, header)) == Framing(head)
  {
    hide Lines, CompleteHead, StartAndFields, WithoutCopies, FramingOfLines, FieldName, WithObservedHost;
    HeadLines(head);
    RewrittenShape(head, header);
    var lines := StartAndFields(head);
    var start, fields := lines[0], lines[1..];
    assert lines == [start] + fields;
    assert RewrittenLines(head, header) == [start] + WithoutCopies(fields) + [header, [], []];
    FramingSkips(start, fields, [[], []]);
    FramingSkips(start, WithoutCopies(fields), [header, [], []]);
    CopiesDoNotFrame(start, fields);
  }

  lemma {:induction false} CopiesAppend(a: seq<Bytes>, b: seq<Bytes>)
    ensures WithoutCopies(a + b) == WithoutCopies(a) + WithoutCopies(b)
  {
    hide ClientCopy;
    if a == [] {
      assert a + b == b;
    } else {
      CopiesAppend(a[1..], b);
      CopiesFirst(a, b);
    }
  }

  lemma CopiesCons(first: Bytes, rest: seq<Bytes>)
    ensures WithoutCopies([first] + rest) == (if ClientCopy(first) then [] else [first]) + WithoutCopies(rest)
  {
    hide ClientCopy;
    assert ([first] + rest)[1..] == rest;
  }

  lemma CopiesFirst(a: seq<Bytes>, b: seq<Bytes>)
    requires a != [] && WithoutCopies(a[1..] + b) == WithoutCopies(a[1..]) + WithoutCopies(b)
    ensures WithoutCopies(a + b) == WithoutCopies(a) + WithoutCopies(b)
  {
    hide *;
    var first, rest := a[0], a[1..];
    CopiesCons(first, rest);
    CopiesCons(first, rest + b);
    assert [first] + rest == a && [first] + (rest + b) == a + b;
  }

  lemma {:induction false} NothingToDrop(fields: seq<Bytes>)
    requires forall k :: 0 <= k < |fields| ==> !ClientCopy(fields[k])
    ensures WithoutCopies(fields) == fields
  {
    if fields != [] {
      NothingToDrop(fields[1..]);
    }
  }

  /** Only the last observation stands: rewriting a rewritten head replaces the header. */
  lemma RewritingReplaces(head: Bytes, x: Bytes, y: Bytes)
    requires CompleteHead(head) && ObservedHeader(x) && CrlfFree(y)
    ensures CompleteHead(WithObservedHost(head, x))
    ensures WithObservedHost(WithObservedHost(head, x), y) == WithObservedHost(head, y)
  {
    hide Lines, CompleteHead, StartAndFields, WithoutCopies, FieldName, Join;
    RewrittenIsComplete(head, x);
    var once := WithObservedHost(head, x);
    RewrittenShape(head, x);
    HeadLines(once);
    var lines, again := StartAndFields(head), StartAndFields(once);
    var kept := WithoutCopies(lines[1..]);
    assert RewrittenLines(head, x) == ([lines[0]] + kept + [x]) + [[], []];
    assert again == Lines(once)[..|Lines(once)| - 2] == [lines[0]] + kept + [x];
    assert again[1..] == kept + [x];
    CopiesAppend(kept, [x]);
    KeptAreFields(lines[1..]);
    NothingToDrop(kept);
    CopyIsDropped(x);
    assert kept + [] == kept;
  }

  // ---------------------------------------------------------------- whole streams

  /** A relay behind a relay: only the second header is left, bodies are untouched, and the
      second relay has nothing left to wait for. */
  lemma {:induction false} RelayingTwice(x: Bytes, y: Bytes, stream: Bytes, remaining: nat)
    requires ObservedHeader(x) && ObservedHeader(y)
    ensures var once, direct := Drain(x, stream, remaining), Drain(y, stream, remaining);
            && Drain(y, once.out, remaining) == Fed(direct.out, direct.after.(buffer := []))
            && once.after == direct.after
    decreases |stream|
  {
    if stream == [] {
    } else if remaining > 0 {
      var paid := if remaining < |stream| then remaining else |stream|;
      var front, rest, left := stream[..paid], stream[paid..], remaining - paid;
      assert stream == front + rest;
      RelayingTwice(x, y, rest, left);
      DrainFront(x, front, rest, left);
      DrainFront(y, front, rest, left);
      DrainFront(y, front, Drain(x, rest, left).out, left);
    } else if FindBlank(stream) < 0 {
      DrainWithoutHead(x, stream);
      DrainWithoutHead(y, stream);
    } else {
      HeadOfStream(stream);
      var end := FindBlank(stream) + 4;
      assert stream == stream[..end] + stream[end..];
      RelayingHeadTwice(x, y, stream[..end], stream[end..]);
    }
  }

  lemma {:induction false} RelayingHeadTwice(x: Bytes, y: Bytes, head: Bytes, rest: Bytes)
    requires ObservedHeader(x) && ObservedHeader(y) && CompleteHead(head)
    ensures var once, direct := Drain(x, head + rest, 0), Drain(y, head + rest, 0);
            && Drain(y, once.out, 0) == Fed(direct.out, direct.after.(buffer := []))
            && once.after == direct.after
    decreases |head + rest|, 0
  {
    hide Drain, FindBlank, Framing, WithObservedHost;
    var sent := WithObservedHost(head, x);
    RewritingReplaces(head, x, y);
    RewritingKeepsFraming(head, x);
    DrainHead(x, head, rest);
    DrainHead(y, head, rest);
    if Framing(head).None? {
      DrainHead(y, sent, rest);
    } else {
      var n := Framing(head).value;
      RelayingTwice(x, y, rest, n);
      DrainHead(y, sent, Drain(x, rest, n).out);
    }
  }

  /** A request whose framing the relay follows. */
  datatype Request = Request(head: Bytes, body: Bytes) {
    ghost predicate Followed() {
      CompleteHead(head) && Framing(head) == Some(|body|)
    }
  }

  function Wire(requests: seq<Request>): Bytes {
    if requests == [] then [] else requests[0].head + requests[0].body + Wire(requests[1..])
  }

  ghost function Observed(header: Bytes, requests: seq<Request>): seq<Request>
    requires forall k :: 0 <= k < |requests| ==> requests[k].Followed()
  {
    if requests == [] then []
    else
      assert requests[0].Followed();
      [Request(WithObservedHost(requests[0].head, header), requests[0].body)] + Observed(header, requests[1..])
  }

  /** Requests on one connection come out one by one, each head rewritten and each body
      byte for byte, before whatever follows them. */
  lemma {:induction false} PipelinedRequests(header: Bytes, requests: seq<Request>, rest: Bytes)
    requires forall k :: 0 <= k < |requests| ==> requests[k].Followed()
    ensures Drain(header, Wire(requests) + rest, 0)
         == Prefixed(Wire(Observed(header, requests)), Drain(header, rest, 0))
    decreases |requests|
  {
    hide Drain, FindBlank, Framing, WithObservedHost;
    if requests == [] {
      assert Wire(requests) + rest == rest;
    } else {
      var first, others := requests[0], requests[1..];
      forall k | 0 <= k < |others| ensures others[k].Followed() {
        assert others[k] == requests[k + 1];
      }
      PipelinedRequests(header, others, rest);
      var later := Wire(others) + rest;
      assert Wire(requests) + rest == first.head + (first.body + later);
      DrainHead(header, first.head, first.body + later);
      if first.body == [] {
        assert first.body + later == later;
      } else {
        DrainFront(header, first.body, later, 0);
      }
      var sent := WithObservedHost(first.head, header);
      var tail := Drain(header, later, 0);
      PrefixedTwice(sent, first.body, tail);
      assert Drain(header, Wire(requests) + rest, 0) == Prefixed(sent + first.body, tail) by {
        assert sent + [] == sent;
        assert Prefixed([], tail) == tail;
      }
      assert Observed(header, requests) == [Request(sent, first.body)] + Observed(header, others);
      PrefixedTwice(sent + first.body, Wire(Observed(header, others)), Drain(header, rest, 0));
    }
  }

  lemma {:induction false} FollowedHeadsFit(header: Bytes, requests: seq<Request>)
    requires forall k :: 0 <= k < |requests| ==> requests[k].Followed()
    requires forall k :: 0 <= k < |requests| ==> |requests[k].head| <= MAX_HEAD_BYTES + 1
    ensures HeadsFit(header, Wire(requests), 0)
    decreases |requests|
  {
    hide FindBlank, Framing, WithObservedHost;
    if requests != [] {
      var first, others := requests[0], requests[1..];
      forall k | 0 <= k < |others| ensures others[k].Followed() && |others[k].head| <= MAX_HEAD_BYTES + 1 {
        assert others[k] == requests[k + 1];
      }
      FollowedHeadsFit(header, others);
      assert first.Followed();
      assert Wire(requests) == first.head + (first.body + Wire(others));
      FitsHead(header, first.head, first.body + Wire(others));
      if first.body == [] {
        assert first.body + Wire(others) == Wire(others);
      } else {
        DrainFront(header, first.body, Wire(others), 0);
      }
    }
  }

  /** However the network cuts the requests of one connection, the service behind the relay
      receives each of them once, annotated, with the client's own body, and nothing else. */
  lemma RequestsArrive(header: Bytes, requests: seq<Request>, chunks: seq<Bytes>)
    requires forall k :: 0 <= k < |requests| ==> requests[k].Followed()
    requires forall k :: 0 <= k < |requests| ==> |requests[k].head| <= MAX_HEAD_BYTES + 1
    requires Flatten(chunks) == Wire(requests)
    ensures FeedAll(header, START, chunks) == Fed(Wire(Observed(header, requests)), START)
  {
    var wire := Wire(requests);
    FollowedHeadsFit(header, requests);
    ChunkIndependence(header, chunks);
    PipelinedRequests(header, requests, []);
    DrainNothing(header, 0);
    var sent := Wire(Observed(header, requests));
    assert wire + [] == wire && [] + wire == wire && sent + [] == sent;
  }

  /** What becomes of what is not one more request with its whole body: the start of a head is
      held, but for one too long; a head that is not followed is annotated and all after it is
      passed on; and of a body that is not all there the rest is owed. */
  ghost predicate Remains(header: Bytes, rest: Bytes, r: Fed) {
    || (FindBlank(rest) < 0 && |rest| <= 64 * 1024 && r == Fed([], Stream(rest, 0, false)))
    || (FindBlank(rest) < 0 && |rest| > 64 * 1024 && r == Fed(rest, Stream([], 0, true)))
    || (exists head, tail :: EndsIn(rest, head, tail) && Framing(head).None?
                             && r == Fed(WithObservedHost(head, header) + tail, Stream([], 0, true)))
    || exists head, part :: EndsIn(rest, head, part) && Framing(head).Some? && |part| < Framing(head).value
                            && r == Fed(WithObservedHost(head, header) + part,
                                        Stream([], Framing(head).value - |part|, false))
  }

  ghost predicate EndsIn(rest: Bytes, head: Bytes, tail: Bytes) {
    CompleteHead(head) && rest == head + tail
  }

  /** No head with its whole body, and none that is not followed is passed over. */
  ghost predicate NoMoreIn(rest: Bytes) {
    FindBlank(rest) < 0 ||
    (HeadOfStream(rest);
     var e := FindBlank(rest) + 4;
     Framing(rest[..e]).None? || |rest| - e < Framing(rest[..e]).value)
  }

  lemma RestRemains(header: Bytes, rest: Bytes)
    requires NoMoreIn(rest)
    ensures Remains(header, rest, Drain(header, rest, 0))
  {
    hide Framing, WithObservedHost, FindBlank, Drain, CompleteHead;
    if FindBlank(rest) < 0 {
      DrainWithoutHead(header, rest);
    } else {
      HeadOfStream(rest);
      var e := FindBlank(rest) + 4;
      var head, tail := rest[..e], rest[e..];
      assert EndsIn(rest, head, tail);
      DrainHead(header, head, tail);
      if Framing(head).Some? {
        DrainOwed(header, tail, Framing(head).value);
      }
    }
  }

  lemma DrainOwed(header: Bytes, part: Bytes, owed: nat)
    requires |part| < owed
    ensures Drain(header, part, owed) == Fed(part, Stream([], owed - |part|, false))
  {
    DrainNothing(header, owed - |part|);
    if part != [] {
      DrainBody(header, part, owed);
      assert part[|part|..] == [] && part[..|part|] == part && part + [] == part;
    }
  }

  lemma {:induction false} RequestsOf(stream: Bytes) returns (requests: seq<Request>, rest: Bytes)
    ensures forall k :: 0 <= k < |requests| ==> requests[k].Followed()
    ensures stream == Wire(requests) + rest && NoMoreIn(rest)
    decreases |stream|
  {
    hide Framing, FindBlank, CompleteHead, Wire;
    if NoMoreIn(stream) {
      requests, rest := [], stream;
      assert Wire([]) + stream == stream by {
        NothingOnTheWire(stream);
      }
    } else {
      HeadOfStream(stream);
      var e := FindBlank(stream) + 4;
      var head := stream[..e];
      var n := Framing(head).value;
      var first, later := Request(head, stream[e..e + n]), stream[e + n..];
      assert stream == first.head + (first.body + later);
      assert first.Followed();
      hide NoMoreIn;
      var more, left := RequestsOf(later);
      requests, rest := [first] + more, left;
      WireOneMore(first, more, left);
      forall k | 0 <= k < |requests| ensures requests[k].Followed() {
        assert k > 0 ==> requests[k] == more[k - 1];
      }
    }
  }

  lemma NothingOnTheWire(rest: Bytes)
    ensures Wire([]) + rest == rest
  {
  }

  lemma WireOneMore(first: Request, more: seq<Request>, rest: Bytes)
    ensures Wire([first] + more) + rest == first.head + (first.body + (Wire(more) + rest))
  {
    assert ([first] + more)[0] == first && ([first] + more)[1..] == more;
    var tail := Wire(more);
    assert Wire([first] + more) == first.head + first.body + tail;
    hide Wire;
    assert first.head + first.body + tail + rest == first.head + (first.body + (tail + rest));
  }

  /** Every stream is some requests and a rest, and the relay sends on those requests annotated,
      each with its own body, and does with the rest as said above. */
  lemma EveryStream(header: Bytes, stream: Bytes) returns (requests: seq<Request>, rest: Bytes, last: Fed)
    ensures forall k :: 0 <= k < |requests| ==> requests[k].Followed()
    ensures stream == Wire(requests) + rest && Remains(header, rest, last)
    ensures FeedStream(header, START, stream) == Prefixed(Wire(Observed(header, requests)), last)
  {
    hide Drain, Remains;
    requests, rest := RequestsOf(stream);
    last := Drain(header, rest, 0);
    RestRemains(header, rest);
    PipelinedRequests(header, requests, rest);
    assert [] + stream == stream;
  }

  /** The pump of one direction of a connection: read, transform, send. */
  method Relay(header: Bytes, chunks: seq<Bytes>) returns (sent: Bytes)
    ensures sent == FeedAll(header, START, chunks).out
  {
    var heads := new ObservedHostHeads(header);
    sent := [];
    ghost var all := FeedAll(header, START, chunks);
    for i := 0 to |chunks|
      invariant heads.header == header
      invariant all == Prefixed(sent, FeedAll(header, heads.State(), chunks[i..]))
    {
      ghost var before, left := heads.State(), chunks[i..];
      assert left[0] == chunks[i] && left[1..] == chunks[i + 1..];
      var forwarded := heads.Feed(chunks[i]);
      PrefixedTwice(sent, forwarded, FeedAll(header, heads.State(), chunks[i + 1..]));
      sent := sent + forwarded;
    }
  }
}
