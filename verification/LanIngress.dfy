/** The relay that states, once per request head, which address the peer reached.

    `Framing` is what the relay believes about a request's body, `WithObservedHost` is the
    head it sends on, and `FeedStream` is one read of the connection. `ObservedHostHeads`
    is the object the connection owns, proved against `FeedStream`. */
module LanIngress {
  import opened Common
  import opened HttpText

  const MAX_HEAD_BYTES := 64 * 1024

  /** "Eidolon-Observed-Host", byte by byte. */
  const OBSERVED_HOST_HEADER: Bytes :=
    [69, 105, 100, 111, 108, 111, 110, 45, 79, 98, 115,
     101, 114, 118, 101, 100, 45, 72, 111, 115, 116]
  const OBSERVED_FIELD: Bytes := Lower(OBSERVED_HOST_HEADER)
  const TRANSFER_ENCODING: Bytes := Ascii("transfer-encoding")
  const UPGRADE: Bytes := Ascii("upgrade")
  const CONTENT_LENGTH: Bytes := Ascii("content-length")
  const CONNECT: Bytes := Ascii("CONNECT ")

  // ---------------------------------------------------------------- framing

  predicate Named(line: Bytes, name: Bytes) {
    HasColon(line) && FieldName(line) == name
  }

  predicate StopsReading(line: Bytes) {
    Named(line, TRANSFER_ENCODING) || Named(line, UPGRADE)
  }

  function Lengths(fields: seq<Bytes>): seq<Bytes> {
    if fields == [] then []
    else (if Named(fields[0], CONTENT_LENGTH) then [FieldValue(fields[0])] else []) + Lengths(fields[1..])
  }

  function LengthValue(value: Bytes): Option<nat> {
    var n := PyInt(value);
    if n.Some? && n.value >= 0 then Some(n.value) else None
  }

  function FramingOfLines(lines: seq<Bytes>): Option<nat>
    requires |lines| >= 1
  {
    var fields := lines[1..];
    var lengths := Lengths(fields);
    if CONNECT <= Upper(lines[0]) || (exists k :: 0 <= k < |fields| && StopsReading(fields[k])) then None
    else if |lengths| == 0 then Some(0)
    else if |lengths| == 1 then LengthValue(lengths[0])
    else None
  }

  /** A field section stops being followed, or declares too much, at one of its lines. */
  lemma Unfollowed(lines: seq<Bytes>, k: nat)
    requires |lines| >= 1 && k < |lines[1..]|
    requires StopsReading(lines[1..][k])
          || |Lengths(lines[1..][..k + 1])| > 1
          || (|Lengths(lines[1..][..k + 1])| == 1 && LengthValue(Lengths(lines[1..][..k + 1])[0]).None?)
    ensures FramingOfLines(lines).None?
  {
    LengthsStep(lines[1..], k);
  }

  /** How long the body after this head is: the one declared length, zero when none is,
      nothing when the framing is not one the relay follows. */
  function Framing(head: Bytes): Option<nat> {
    FramingOfLines(Lines(head))
  }

  /** The single pass over the field lines that the relay makes. */
  method BodyLength(head: Bytes) returns (r: Option<nat>)
    ensures r == Framing(head)
  {
    var lines := Lines(head);
    if CONNECT <= Upper(lines[0]) {
      return None;
    }
    var fields := lines[1..];
    var length := 0;
    var declared := false;
    for i := 0 to |fields|
      invariant length >= 0 && (!declared ==> length == 0)
      invariant forall k :: 0 <= k < i ==> !StopsReading(fields[k])
      invariant |Lengths(fields[..i])| == if declared then 1 else 0
      invariant declared ==> LengthValue(Lengths(fields[..i])[0]) == Some(length)
    {
      LengthsStep(fields, i);
      if !HasColon(fields[i]) {
        continue;
      }
      var field := FieldName(fields[i]);
      if field == TRANSFER_ENCODING || field == UPGRADE {
        Unfollowed(lines, i);
        return None;
      }
      if field != CONTENT_LENGTH {
        continue;
      }
      if declared {
        Unfollowed(lines, i);
        return None;
      }
      declared := true;
      var parsed := LengthValue(FieldValue(fields[i]));
      if parsed.None? {
        Unfollowed(lines, i);
        return None;
      }
      length := parsed.value;
    }
    assert fields[..|fields|] == fields;
    return Some(length);
  }

  lemma LengthsStep(fields: seq<Bytes>, i: nat)
    requires i < |fields|
    ensures Lengths(fields[..i + 1])
         == Lengths(fields[..i]) + if Named(fields[i], CONTENT_LENGTH) then [FieldValue(fields[i])] else []
    ensures Lengths(fields[..i + 1]) <= Lengths(fields)
  {
    hide Named, FieldValue;
    assert fields[..i + 1] == fields[..i] + [fields[i]];
    LengthsAppend(fields[..i], [fields[i]]);
    assert fields == fields[..i + 1] + fields[i + 1..];
    LengthsAppend(fields[..i + 1], fields[i + 1..]);
  }

  lemma {:induction false} LengthsAppend(a: seq<Bytes>, b: seq<Bytes>)
    ensures Lengths(a + b) == Lengths(a) + Lengths(b)
  {
    if a == [] {
      assert a + b == b;
    } else {
      hide Named, FieldValue;
      LengthsAppend(a[1..], b);
      assert (a + b)[0] == a[0] && (a + b)[1..] == a[1..] + b;
      var first := if Named(a[0], CONTENT_LENGTH) then [FieldValue(a[0])] else [];
      assert first + (Lengths(a[1..]) + Lengths(b)) == (first + Lengths(a[1..])) + Lengths(b);
    }
  }

  // ---------------------------------------------------------------- rewriting

  predicate ClientCopy(line: Bytes) {
    FieldName(line) == OBSERVED_FIELD
  }

  function WithoutCopies(fields: seq<Bytes>): seq<Bytes> {
    if fields == [] then []
    else (if ClientCopy(fields[0]) then [] else [fields[0]]) + WithoutCopies(fields[1..])
  }

  /** The start line and field lines: all lines before the blank one. */
  function StartAndFields(head: Bytes): (r: seq<Bytes>)
    requires CompleteHead(head)
    ensures |r| >= 1
  {
    HeadDecomposes(head);
    var lines := Lines(head[..|head| - 2]);
    lines[..|lines| - 1]
  }

  function WithObservedHost(head: Bytes, header: Bytes): Bytes
    requires CompleteHead(head)
  {
    var lines := StartAndFields(head);
    Join([lines[0]] + WithoutCopies(lines[1..])) + CRLF + header + CRLF + CRLF
  }

  lemma HeadDecomposes(head: Bytes)
    requires CompleteHead(head)
    ensures |Lines(head)| >= 3
    ensures var lines := Lines(head); Lines(head[..|head| - 2]) == lines[..|lines| - 1]
  {
    hide Lines, CrlfFree, IsCrlf, CompleteHead;
    var lines := Lines(head);
    HeadByLines(head);
    JoinOfLines(head);
    var front := lines[..|lines| - 1];
    assert lines == front + [[]];
    JoinAppend(front, [[]]);
    assert head[..|head| - 2] == Join(front);
    LinesOfJoin(front);
  }

  // ---------------------------------------------------------------- one connection

  /** What the relay holds between reads. */
  datatype Stream = Stream(buffer: Bytes, remaining: nat, relaying: bool)

  /** What one read sends on, and what is held afterwards. */
  datatype Fed = Fed(out: Bytes, after: Stream)

  function Prefixed(out: Bytes, rest: Fed): Fed {
    Fed(out + rest.out, rest.after)
  }

  lemma PrefixedTwice(a: Bytes, b: Bytes, rest: Fed)
    ensures Prefixed(a, Prefixed(b, rest)) == Prefixed(a + b, rest)
  {
    assert a + (b + rest.out) == (a + b) + rest.out;
  }

  const START := Stream([], 0, false)

  /** Everything the relay can do with the bytes it holds. */
  function Drain(header: Bytes, buffer: Bytes, remaining: nat): Fed
    decreases |buffer|
  {
    if buffer == [] then Fed([], Stream([], remaining, false))
    else if remaining > 0 then
      var taken := if remaining < |buffer| then remaining else |buffer|;
      Prefixed(buffer[..taken], Drain(header, buffer[taken..], remaining - taken))
    else
      var end := FindBlank(buffer);
      if end < 0 then
        if |buffer| > MAX_HEAD_BYTES then Fed(buffer, Stream([], 0, true))
        else Fed([], Stream(buffer, 0, false))
      else
        HeadOfStream(buffer);
        var head, rest := buffer[..end + 4], buffer[end + 4..];
        var length := Framing(head);
        var sent := WithObservedHost(head, header);
        if length.None? then Fed(sent + rest, Stream([], 0, true))
        else Prefixed(sent, Drain(header, rest, length.value))
  }

  function FeedStream(header: Bytes, s: Stream, chunk: Bytes): Fed {
    if s.relaying then Fed(chunk, s) else Drain(header, s.buffer + chunk, s.remaining)
  }

  function FeedAll(header: Bytes, s: Stream, chunks: seq<Bytes>): Fed
    decreases |chunks|
  {
    if chunks == [] then Fed([], s)
    else
      var first := FeedStream(header, s, chunks[0]);
      Prefixed(first.out, FeedAll(header, first.after, chunks[1..]))
  }

  class ObservedHostHeads {
    const header: Bytes
    var buffer: Bytes
    var remaining: nat
    var relaying: bool

    function State(): Stream
      reads this
    {
      Stream(buffer, remaining, relaying)
    }

    constructor (header: Bytes)
      ensures this.header == header && State() == START
    {
      this.header := header;
      buffer, remaining, relaying := [], 0, false;
    }

    method Feed(chunk: Bytes) returns (out: Bytes)
      modifies this
      ensures Fed(out, State()) == FeedStream(header, old(State()), chunk)
    {
      if relaying {
        return chunk;
      }
      buffer := buffer + chunk;
      out := [];
      ghost var whole := Drain(header, buffer, remaining);
      assert whole == Prefixed(out, whole);
      while buffer != [] && !relaying
        invariant !relaying
        invariant whole == Prefixed(out, Drain(header, buffer, remaining))
        decreases |buffer|
      {
        if remaining > 0 {
          var taken := if remaining < |buffer| then remaining else |buffer|;
          PrefixedTwice(out, buffer[..taken], Drain(header, buffer[taken..], remaining - taken));
          out := out + buffer[..taken];
          buffer := buffer[taken..];
          remaining := remaining - taken;
          continue;
        }
        var end := FindBlank(buffer);
        if end < 0 {
          relaying := |buffer| > MAX_HEAD_BYTES;
          break;
        }
        HeadOfStream(buffer);
        var head := buffer[..end + 4];
        buffer := buffer[end + 4..];
        var length := BodyLength(head);
        ghost var sent := WithObservedHost(head, header);
        if length.None? {
          assert whole == Fed(out + sent + buffer, Stream([], 0, true)) by {
            PrefixedTwice(out, sent, Fed(buffer, Stream([], 0, true)));
          }
        } else {
          PrefixedTwice(out, sent, Drain(header, buffer, length.value));
        }
        out := out + WithObservedHost(head, header);
        if length.None? {
          relaying := true;
          break;
        }
        remaining := length.value;
      }
      if relaying {
        out := out + buffer;
        buffer := [];
      }
    }
  }
}
