/** How the network cuts a stream does not matter to what the relay sends on,
    exactly when no complete head outgrows what the relay will hold. */
module LanIngressChunks {
  import opened HttpText
  import opened LanIngress

  /** A head the relay can be shown in pieces: short enough to be held up to its last
      byte, or one that is sent on unchanged and ends the reading anyway. */
  predicate HeadFits(header: Bytes, head: Bytes)
    requires CompleteHead(head)
  {
    |head| <= MAX_HEAD_BYTES + 1 || (Framing(head).None? && WithObservedHost(head, header) == head)
  }

  /** Every head the relay reads in this stream fits. */
  predicate HeadsFit(header: Bytes, buffer: Bytes, remaining: nat)
    decreases |buffer|
  {
    if buffer == [] then true
    else if remaining > 0 then
      var taken := if remaining < |buffer| then remaining else |buffer|;
      HeadsFit(header, buffer[taken..], remaining - taken)
    else
      var end := FindBlank(buffer);
      end < 0 ||
      (HeadOfStream(buffer);
       var head := buffer[..end + 4];
       && HeadFits(header, head)
       && (Framing(head).None? || HeadsFit(header, buffer[end + 4..], Framing(head).value)))
  }

  /** What has been sent after one more read. */
  function ThenRead(header: Bytes, first: Fed, b: Bytes): Fed {
    Prefixed(first.out, FeedStream(header, first.after, b))
  }

  /** Reading `a` and then `b` is reading `a + b`. */
  predicate Agree(header: Bytes, a: Bytes, b: Bytes, remaining: nat) {
    ThenRead(header, Drain(header, a, remaining), b) == Drain(header, a + b, remaining)
  }

  lemma HeadInFront(a: Bytes, b: Bytes)
    requires FindBlank(a) >= 0
    ensures FindBlank(a) + 4 <= |a|
    ensures FindBlank(a + b) == FindBlank(a)
    ensures (a + b)[..FindBlank(a) + 4] == a[..FindBlank(a) + 4]
    ensures (a + b)[FindBlank(a) + 4..] == a[FindBlank(a) + 4..] + b
  {
    HeadOfStream(a);
    BlankIsStable(a, b);
  }


  /** Bytes of a body still owed go out as they are. */
  lemma DrainFront(header: Bytes, front: Bytes, rest: Bytes, left: nat)
    requires front != []
    ensures Drain(header, front + rest, |front| + left) == Prefixed(front, Drain(header, rest, left))
    ensures HeadsFit(header, front + rest, |front| + left) <==> HeadsFit(header, rest, left)
  {
    hide Drain, HeadsFit;
    var t := if left < |rest| then left else |rest|;
    var stream := front + rest;
    DrainBody(header, stream, |front| + left);
    assert stream[..|front| + t] == front + rest[..t] && stream[|front| + t..] == rest[t..];
    if t == 0 {
      assert rest[0..] == rest && front + rest[..0] == front;
    } else {
      DrainBody(header, rest, left);
      PrefixedTwice(front, rest[..t], Drain(header, rest[t..], left - t));
    }
  }

  lemma DrainBody(header: Bytes, buffer: Bytes, remaining: nat)
    requires buffer != [] && remaining > 0
    ensures var t := if remaining < |buffer| then remaining else |buffer|;
            && Drain(header, buffer, remaining) == Prefixed(buffer[..t], Drain(header, buffer[t..], remaining - t))
            && (HeadsFit(header, buffer, remaining) <==> HeadsFit(header, buffer[t..], remaining - t))
  {
    hide FindBlank, Framing, WithObservedHost, Prefixed;
  }

  lemma DrainHead(header: Bytes, head: Bytes, rest: Bytes)
    requires CompleteHead(head)
    ensures Drain(header, head + rest, 0)
         == var sent := WithObservedHost(head, header);
            if Framing(head).None? then Fed(sent + rest, Stream([], 0, true))
            else Prefixed(sent, Drain(header, rest, Framing(head).value))
  {
    HeadInFront(head, rest);
    assert head[..|head|] == head && head[|head|..] + rest == rest;
  }

  lemma FitsHead(header: Bytes, head: Bytes, rest: Bytes)
    requires CompleteHead(head)
    ensures HeadsFit(header, head + rest, 0)
        <==> HeadFits(header, head) && (Framing(head).None? || HeadsFit(header, rest, Framing(head).value))
  {
    HeadInFront(head, rest);
    assert head[..|head|] == head && head[|head|..] + rest == rest;
  }

  lemma DrainAssociates(out: Bytes, first: Fed, header: Bytes, b: Bytes)
    ensures ThenRead(header, Prefixed(out, first), b) == Prefixed(out, ThenRead(header, first, b))
  {
    PrefixedTwice(out, first.out, FeedStream(header, first.after, b));
  }

  lemma DrainWithoutHead(header: Bytes, buffer: Bytes)
    requires FindBlank(buffer) < 0
    ensures Drain(header, buffer, 0) == if |buffer| > MAX_HEAD_BYTES then Fed(buffer, Stream([], 0, true))
                                        else Fed([], Stream(buffer, 0, false))
  {
  }

  /** Reading `a` and then `b` is reading `a + b`. */
  lemma {:induction false} TwoReads(header: Bytes, a: Bytes, b: Bytes, remaining: nat)
    requires HeadsFit(header, a + b, remaining)
    ensures Agree(header, a, b, remaining)
    decreases |a|
  {
    hide Drain, Framing, WithObservedHost;
    assert [] + b == b;
    if a == [] {
      assert a + b == b;
      DrainNothing(header, remaining);
    } else if remaining > 0 {
      TwoReadsInBody(header, a, b, remaining);
    } else if FindBlank(a) >= 0 {
      HeadOfStream(a);
      var head, rest := a[..FindBlank(a) + 4], a[FindBlank(a) + 4..];
      assert a == head + rest && a + b == head + (rest + b);
      TwoReadsAfterHead(header, head, rest, b);
    } else {
      DrainWithoutHead(header, a);
      if |a| > MAX_HEAD_BYTES {
        LongFirstRead(header, a, b);
      }
    }
  }

  lemma DrainNothing(header: Bytes, remaining: nat)
    ensures Drain(header, [], remaining) == Fed([], Stream([], remaining, false))
  {
  }

  lemma LongFirstRead(header: Bytes, a: Bytes, b: Bytes)
    requires FindBlank(a) < 0 && |a| > MAX_HEAD_BYTES
    requires HeadsFit(header, a + b, 0)
    ensures Drain(header, a + b, 0) == Fed(a + b, Stream([], 0, true))
  {
    hide Framing, WithObservedHost;
    BlankIsStable(a, b);
    var end := FindBlank(a + b);
    if end >= 0 {
      HeadOfStream(a + b);
      var head, rest := (a + b)[..end + 4], (a + b)[end + 4..];
      assert a + b == head + rest;
      FitsHead(header, head, rest);
      DrainHead(header, head, rest);
    }
  }

  lemma {:induction false} TwoReadsAfterHead(header: Bytes, head: Bytes, rest: Bytes, b: Bytes)
    requires CompleteHead(head) && HeadsFit(header, head + (rest + b), 0)
    ensures ThenRead(header, Drain(header, head + rest, 0), b) == Drain(header, head + (rest + b), 0)
    decreases |head + rest|, 0
  {
    hide FindBlank, Framing, WithObservedHost, HeadsFit;
    var sent := WithObservedHost(head, header);
    FitsHead(header, head, rest + b);
    DrainHead(header, head, rest);
    DrainHead(header, head, rest + b);
    if Framing(head).None? {
      assert sent + (rest + b) == (sent + rest) + b;
    } else {
      TwoReads(header, rest, b, Framing(head).value);
      DrainAssociates(sent, Drain(header, rest, Framing(head).value), header, b);
    }
  }


  lemma {:induction false} TwoReadsInBody(header: Bytes, a: Bytes, b: Bytes, remaining: nat)
    requires a != [] && remaining > 0
    requires HeadsFit(header, a + b, remaining)
    ensures Agree(header, a, b, remaining)
    decreases |a|, 0
  {
    if remaining < |a| {
      var front, rest := a[..remaining], a[remaining..];
      assert a == front + rest && a + b == front + (rest + b);
      DrainFront(header, front, rest, 0);
      DrainFront(header, front, rest + b, 0);
      TwoReads(header, rest, b, 0);
      DrainAssociates(front, Drain(header, rest, 0), header, b);
    } else {
      var left := remaining - |a|;
      assert a + [] == a && [] + b == b;
      DrainFront(header, a, [], left);
      DrainFront(header, a, b, left);
    }
  }

  /** A prefix of a stream whose heads fit has heads that fit. */
  lemma {:induction false} PrefixFits(header: Bytes, a: Bytes, b: Bytes, remaining: nat)
    requires HeadsFit(header, a + b, remaining)
    ensures HeadsFit(header, a, remaining)
    decreases |a|
  {
    if a == [] {
    } else if remaining > 0 {
      if remaining < |a| {
        assert (a + b)[remaining..] == a[remaining..] + b;
        PrefixFits(header, a[remaining..], b, 0);
      }
    } else if FindBlank(a) >= 0 {
      var end := FindBlank(a);
      HeadOfStream(a);
      HeadInFront(a, b);
      if Framing(a[..end + 4]).Some? {
        PrefixFits(header, a[end + 4..], b, Framing(a[..end + 4]).value);
      }
    }
  }

  function Flatten(chunks: seq<Bytes>): Bytes {
    if chunks == [] then [] else Flatten(chunks[..|chunks| - 1]) + chunks[|chunks| - 1]
  }

  lemma {:induction false} FeedAllSnoc(header: Bytes, s: Stream, chunks: seq<Bytes>, last: Bytes)
    ensures var before := FeedAll(header, s, chunks);
            FeedAll(header, s, chunks + [last]) == Prefixed(before.out, FeedStream(header, before.after, last))
    decreases |chunks|
  {
    if chunks == [] {
      var fed := FeedStream(header, s, last);
      assert Prefixed(fed.out, Fed([], fed.after)) == fed == Prefixed([], fed);
    } else {
      var first := FeedStream(header, s, chunks[0]);
      FeedAllSnoc(header, first.after, chunks[1..], last);
      assert (chunks + [last])[1..] == chunks[1..] + [last];
      var before := FeedAll(header, first.after, chunks[1..]);
      PrefixedTwice(first.out, before.out, FeedStream(header, before.after, last));
    }
  }

  /** Any cutting of a stream into reads sends on the same bytes, and leaves the relay
      holding the same bytes, counter and flag, as reading it all at once. */
  lemma {:induction false} ChunkIndependence(header: Bytes, chunks: seq<Bytes>)
    requires HeadsFit(header, Flatten(chunks), 0)
    ensures FeedAll(header, START, chunks) == FeedStream(header, START, Flatten(chunks))
    decreases |chunks|
  {
    if chunks == [] {
      assert [] + Flatten(chunks) == [];
    } else {
      var front, last := chunks[..|chunks| - 1], chunks[|chunks| - 1];
      var a := Flatten(front);
      PrefixFits(header, a, last, 0);
      ChunkIndependence(header, front);
      FeedAllSnoc(header, START, front, last);
      assert chunks == front + [last];
      assert [] + a == a && [] + (a + last) == a + last;
      TwoReads(header, a, last, 0);
    }
  }

  /** A head that does not fit is told apart by cutting the stream before its last byte. */
  lemma {:induction false} LongHeadIsCut(header: Bytes, stream: Bytes, remaining: nat) returns (a: Bytes, b: Bytes)
    requires !HeadsFit(header, stream, remaining)
    ensures a + b <= stream && !Agree(header, a, b, remaining)
    decreases |stream|
  {
    hide Drain, FindBlank, Framing, WithObservedHost;
    if remaining > 0 {
      var paid := if remaining < |stream| then remaining else |stream|;
      var front, rest := stream[..paid], stream[paid..];
      assert stream == front + rest;
      DrainFront(header, front, rest, remaining - paid);
      a, b := LongHeadIsCut(header, rest, 0);
      CutAfterBody(header, front, a, b);
      a := front + a;
    } else {
      HeadOfStream(stream);
      var end := FindBlank(stream) + 4;
      assert stream == stream[..end] + stream[end..];
      a, b := LongHeadIsCutAt(header, stream[..end], stream[end..]);
    }
  }

  lemma {:induction false} LongHeadIsCutAt(header: Bytes, head: Bytes, rest: Bytes) returns (a: Bytes, b: Bytes)
    requires CompleteHead(head) && !HeadsFit(header, head + rest, 0)
    ensures a + b <= head + rest && !Agree(header, a, b, 0)
    decreases |head + rest|, 0
  {
    hide Drain, FindBlank, Framing, WithObservedHost;
    FitsHead(header, head, rest);
    if HeadFits(header, head) {
      a, b := LongHeadIsCut(header, rest, Framing(head).value);
      CutAfterHead(header, head, a, b);
      a := head + a;
    } else {
      a, b := head[..|head| - 1], head[|head| - 1..];
      assert a + b == head;
      CutInHead(header, head);
    }
  }

  lemma CutInHead(header: Bytes, head: Bytes)
    requires CompleteHead(head) && !HeadFits(header, head)
    ensures !Agree(header, head[..|head| - 1], head[|head| - 1..], 0)
  {
    var a, b := head[..|head| - 1], head[|head| - 1..];
    BlankIsStable(a, b);
    assert a + b == head && head + [] == head;
    DrainWithoutHead(header, a);
    DrainHead(header, head, []);
    var sent := WithObservedHost(head, header);
    assert sent + [] == sent;
  }

  /** Cutting later bytes apart shows behind anything that was read before them. */
  lemma CutBehind(header: Bytes, sent: Bytes, first: Fed, b: Bytes, whole: Fed)
    requires ThenRead(header, first, b) != whole
    ensures ThenRead(header, Prefixed(sent, first), b) != Prefixed(sent, whole)
  {
    DrainAssociates(sent, first, header, b);
    var read := ThenRead(header, first, b);
    assert read.out == (sent + read.out)[|sent|..] && whole.out == (sent + whole.out)[|sent|..];
  }

  lemma CutAfterBody(header: Bytes, front: Bytes, a: Bytes, b: Bytes)
    requires front != [] && !Agree(header, a, b, 0)
    ensures !Agree(header, front + a, b, |front|)
  {
    hide Drain, FindBlank, Framing, WithObservedHost, FeedStream, ThenRead, Prefixed, HeadsFit;
    DrainFront(header, front, a, 0);
    DrainFront(header, front, a + b, 0);
    CutBehind(header, front, Drain(header, a, 0), b, Drain(header, a + b, 0));
    assert (front + a) + b == front + (a + b);
  }

  lemma CutAfterHead(header: Bytes, head: Bytes, a: Bytes, b: Bytes)
    requires CompleteHead(head) && Framing(head).Some?
    requires !Agree(header, a, b, Framing(head).value)
    ensures !Agree(header, head + a, b, 0)
  {
    hide Drain, FindBlank, Framing, WithObservedHost, FeedStream, ThenRead, Prefixed, HeadsFit;
    var n := Framing(head).value;
    DrainHead(header, head, a);
    DrainHead(header, head, a + b);
    CutBehind(header, WithObservedHost(head, header), Drain(header, a, n), b, Drain(header, a + b, n));
    assert (head + a) + b == head + (a + b);
  }

  /** The bound is exact: the relay answers alike however any prefix of the stream is cut
      in two if and only if every head it reads fits. */
  lemma CutsAgreeIffHeadsFit(header: Bytes, stream: Bytes)
    ensures HeadsFit(header, stream, 0) <==> forall a, b :: a + b <= stream ==> Agree(header, a, b, 0)
  {
    if HeadsFit(header, stream, 0) {
      forall a, b | a + b <= stream ensures Agree(header, a, b, 0) {
        assert (a + b) + stream[|a + b|..] == stream;
        PrefixFits(header, a + b, stream[|a + b|..], 0);
        TwoReads(header, a, b, 0);
      }
    } else {
      var a, b := LongHeadIsCut(header, stream, 0);
    }
  }
}
