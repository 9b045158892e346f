/**
 HTTP messages without Content-Length behind messages that have it.  What becomes of such a
 message depends on the side of the connection and, on a server, on whether the network cuts
 the stream exactly behind it.
 */
module HttpUnframed {
  import opened HttpFraming
  import opened HttpHeaders
  import opened HttpMessages
  import opened HttpRoundTrips
  import opened Optional
  import opened Sequences

  /** A complete header block that parses and has no Content-Length. */
  predicate HasNoLength(head: string) {
    && Find(head + HEAD_BODY_SEPARATOR, HEAD_BODY_SEPARATOR) == Some(|head|)
    && ParseHeader(head).Some? && ValuesOf(ParseHeader(head).value, CONTENT_LENGTH) == []
  }

  /** The first look at a buffer that has grown since part of the header was seen. */
  lemma HeaderWithoutLength(site: Site, head: string, buffer: string, last: nat)
    requires HasNoLength(head) && Agree(buffer, head + HEAD_BODY_SEPARATOR) && last != |buffer|
    ensures var whole := |head + HEAD_BODY_SEPARATOR|;
            FindRawMessage(site, Progress(0, last), buffer) ==
            if |buffer| < whole then (Progress(0, |buffer|), Nothing)
            else if !site.isServer then (Progress(site.sizeMax, |buffer|), Nothing)
            else if |buffer| == whole then (FRESH, Whole(whole))
            else (Progress(0, |buffer|), Throws(LengthRequired))
  {
    hide ParseHeader, Find, ValuesOf;
    var m := head + HEAD_BODY_SEPARATOR;
    HeadIsFoundOnceComplete(buffer, m);
    assert m[..|head|] == head;
  }

  /** What the decoder remembers after `seen` chars of the messages before `head` and of
      `head`, none of which is complete. */
  predicate InStepBefore(d: Progress, seen: nat, ms: seq<string>, head: string) {
    if ms == [] then seen < |head + HEAD_BODY_SEPARATOR| && d == Progress(0, seen) else InStep(d, seen, ms[0])
  }

  /** Draining a buffer that begins with `ms` and then `head`, or is a beginning of that: the
      server takes `head` as a message if nothing follows it and throws if something does; the
      client keeps it. */
  predicate DrainsTo(site: Site, r: Received, buffer: string, ms: seq<string>, head: string) {
    var request := head + HEAD_BODY_SEPARATOR;
    var before, n := |Concat(ms)|, |buffer|;
    if n < before + |request| then
      && r.frames == Complete(n, ms) && !r.threw
      && InStepBefore(r.progress, |r.buffer|, Later(n, ms), head) && |r.buffer| == Begun(n, ms)
    else if !site.isServer then
      r == Received(ms, Progress(site.sizeMax, n - before), buffer[before..], false)
    else if n == before + |request| then r == Received(ms + [request], FRESH, "", false)
    else r.frames == ms && r.threw
  }

  lemma DrainOfHead(site: Site, d: Progress, seen: nat, buffer: string, head: string)
    requires HasNoLength(head) && InStepBefore(d, seen, [], head) && seen <= |buffer|
    requires Agree(buffer, head + HEAD_BODY_SEPARATOR) && site.sizeMax > 0
    ensures DrainsTo(site, Drain(site, d, buffer), buffer, [], head)
  {
    hide FindRawMessage, HasNoLength;
    assert Concat<char>([]) == [];
    if seen == |buffer| {
      NothingNew(site, d, buffer);
    } else {
      HeaderWithoutLength(site, head, buffer, seen);
      EmptyBufferHasNothing(site);
      if |buffer| == |head + HEAD_BODY_SEPARATOR| {
        assert buffer == head + HEAD_BODY_SEPARATOR;
        assert buffer[..|buffer|] == buffer && buffer[|buffer|..] == "";
        assert [buffer] + [] == [] + [buffer] == [buffer];
      }
    }
  }

  lemma NothingNew(site: Site, d: Progress, buffer: string)
    requires d.lastBufSize == |buffer|
    ensures FindRawMessage(site, d, buffer) == (d, Nothing)
  {
  }

  lemma {:induction false} DrainBefore(site: Site, d: Progress, seen: nat, buffer: string, ms: seq<string>,
                                       head: string, extra: string)
    requires AreFramed(site, ms) && HasNoLength(head) && InStepBefore(d, seen, ms, head)
    requires seen <= |buffer| && site.sizeMax > 0
    requires buffer <= Concat(ms) + (head + HEAD_BODY_SEPARATOR + extra)
    ensures DrainsTo(site, Drain(site, d, buffer), buffer, ms, head)
    decreases |ms|
  {
    hide FindRawMessage, IsFramed, HasNoLength;
    var rest := head + HEAD_BODY_SEPARATOR + extra;
    if ms == [] {
      PrefixOfConcat(buffer, head + HEAD_BODY_SEPARATOR, extra);
      DrainOfHead(site, d, seen, buffer, head);
    } else {
      Associative(ms[0], Concat(ms[1..]), rest);
      PrefixOfConcat(buffer, ms[0], Concat(ms[1..]) + rest);
      FindsExactlyTheMessage(site, d, seen, buffer, ms[0]);
      if |buffer| >= |ms[0]| {
        assert AreFramed(site, ms[1..]);
        assert InStepBefore(FRESH, 0, ms[1..], head) by { FreshIsBefore(site, ms[1..], head); }
        DrainBefore(site, FRESH, 0, buffer[|ms[0]|..], ms[1..], head, extra);
        AfterFirst(site, Drain(site, FRESH, buffer[|ms[0]|..]), Drain(site, d, buffer), buffer, ms, head);
      }
    }
  }

  lemma FreshIsBefore(site: Site, ms: seq<string>, head: string)
    requires AreFramed(site, ms)
    ensures InStepBefore(FRESH, 0, ms, head)
  {
  }

  lemma AfterFirst(site: Site, later: Received, r: Received, buffer: string, ms: seq<string>, head: string)
    requires ms != [] && |buffer| >= |ms[0]| && r == later.(frames := [ms[0]] + later.frames)
    requires DrainsTo(site, later, buffer[|ms[0]|..], ms[1..], head)
    ensures DrainsTo(site, r, buffer, ms, head)
  {
    hide InStepBefore;
    assert ms == [ms[0]] + ms[1..];
    assert [ms[0]] + (ms[1..] + [head + HEAD_BODY_SEPARATOR]) == ms + [head + HEAD_BODY_SEPARATOR];
  }

  // ---- whole streams ----------------------------------------------------------------

  /** Draining never loses, repeats or reorders a char, whatever the stream. */
  lemma {:induction false} DrainLosesNothing(site: Site, d: Progress, buffer: string)
    ensures var r := Drain(site, d, buffer); buffer == Concat(r.frames) + r.buffer
    decreases |buffer|
  {
    hide FindRawMessage, Concat;
    var found := FindRawMessage(site, d, buffer);
    if found.1.Whole? && found.1.size > 0 {
      DrainLosesNothing(site, found.0, buffer[found.1.size..]);
      var later := Drain(site, found.0, buffer[found.1.size..]);
      FrameInFront(buffer, found.1.size, later.frames, later.buffer);
    } else {
      NoFrames(buffer);
    }
  }

  lemma FrameInFront(buffer: string, n: nat, frames: seq<string>, rest: string)
    requires n <= |buffer| && buffer[n..] == Concat(frames) + rest
    ensures buffer == Concat([buffer[..n]] + frames) + rest
  {
    hide Concat;
    ConcatCons(buffer[..n], frames);
    Associative(buffer[..n], Concat(frames), rest);
    assert buffer == buffer[..n] + buffer[n..];
  }

  lemma NoFrames(buffer: string)
    ensures buffer == Concat([]) + buffer
  {
  }

  /** The network cuts the stream after exactly `n` chars. */
  predicate HasCut(n: nat, chunks: seq<string>) {
    n == 0 || (chunks != [] && |chunks[0]| <= n && HasCut(n - |chunks[0]|, chunks[1..]))
  }

  /** A client that has seen a header without Content-Length takes nothing from then on, until
      the buffer is as large as size_t allows. */
  lemma {:induction false} ClientWaitsForever(site: Site, last: nat, buffer: string, chunks: seq<string>)
    requires |buffer| + |Concat(chunks)| < site.sizeMax
    ensures var r := FeedAll(site, Progress(site.sizeMax, last), buffer, chunks);
            r.frames == [] && !r.threw && r.buffer == buffer + Concat(chunks) && r.progress.length == site.sizeMax
    decreases |chunks|
  {
    if chunks == [] {
      assert buffer + [] == buffer;
    } else {
      var grown := buffer + chunks[0];
      var now := if last == |grown| then Progress(site.sizeMax, last) else Progress(site.sizeMax, |grown|);
      assert FindRawMessage(site, Progress(site.sizeMax, last), grown) == (now, Nothing);
      ClientWaitsForever(site, now.lastBufSize, grown, chunks[1..]);
      Associative(buffer, chunks[0], Concat(chunks[1..]));
    }
  }

  /** What a whole stream of `ms`, then `head`, then `extra` comes to, when `need` chars are
      missing until `head` is complete. */
  predicate FeedsTo(site: Site, r: Received, need: nat, chunks: seq<string>, ms: seq<string>, head: string, extra: string) {
    var request := head + HEAD_BODY_SEPARATOR;
    if !site.isServer then r.frames == ms && !r.threw && r.buffer == request + extra
    else if HasCut(need, chunks) then
      ms + [request] <= r.frames && (extra == "" ==> r == Received(ms + [request], FRESH, "", false))
    else r.frames == ms && r.threw
  }

  lemma {:induction false} CompleteThenLater(n: nat, ms: seq<string>)
    ensures Complete(n, ms) + Later(n, ms) == ms
  {
    if ms != [] && n >= |ms[0]| {
      CompleteThenLater(n - |ms[0]|, ms[1..]);
      Associative([ms[0]], Complete(n - |ms[0]|, ms[1..]), Later(n - |ms[0]|, ms[1..]));
      assert ms == [ms[0]] + ms[1..];
    }
  }

  /** The first part of a stream is in the frames taken and the buffer; the rest is to come. */
  lemma RestOfStream(site: Site, n: nat, ms: seq<string>, now: Received, grown: string, more: string, rest: string)
    requires AreFramed(site, ms) && now.frames == Complete(n, ms) && grown == Concat(now.frames) + now.buffer
    requires grown + more == Concat(ms) + rest
    ensures AreFramed(site, Later(n, ms)) && now.buffer + more == Concat(Later(n, ms)) + rest
  {
    hide AreFramed;
    LaterIsFramed(site, n, ms);
    var done, later := Concat(Complete(n, ms)), Concat(Later(n, ms));
    Associative(done, now.buffer, more);
    Associative(done, later, rest);
    assert (done + (now.buffer + more))[|done|..] == now.buffer + more;
    assert (done + (later + rest))[|done|..] == later + rest;
  }

  /** How the result goes on when nothing of `head` was taken yet. */
  lemma FeedsOn(site: Site, n: nat, need: nat, chunks: seq<string>, ms: seq<string>, head: string, extra: string,
                later: Received)
    requires chunks != [] && 0 < need && |chunks[0]| < need
    requires FeedsTo(site, later, need - |chunks[0]|, chunks[1..], Later(n, ms), head, extra)
    ensures FeedsTo(site, later.(frames := Complete(n, ms) + later.frames), need, chunks, ms, head, extra)
  {
    var request := head + HEAD_BODY_SEPARATOR;
    CompleteThenLater(n, ms);
    Associative(Complete(n, ms), Later(n, ms), [request]);
    if site.isServer && HasCut(need, chunks) {
      var rest := later.frames[|Later(n, ms) + [request]|..];
      assert later.frames == (Later(n, ms) + [request]) + rest;
      Associative(Complete(n, ms), Later(n, ms) + [request], rest);
    }
  }

  lemma {:induction false} StreamFeedsTo(site: Site, d: Progress, buffer: string, chunks: seq<string>,
                                         ms: seq<string>, head: string, extra: string)
    requires AreFramed(site, ms) && HasNoLength(head) && InStepBefore(d, |buffer|, ms, head)
    requires buffer + Concat(chunks) == Concat(ms) + (head + HEAD_BODY_SEPARATOR + extra)
    requires |head + HEAD_BODY_SEPARATOR + extra| < site.sizeMax
    requires |buffer| < |Concat(ms)| + |head + HEAD_BODY_SEPARATOR|
    ensures FeedsTo(site, FeedAll(site, d, buffer, chunks), |Concat(ms)| + |head + HEAD_BODY_SEPARATOR| - |buffer|,
                    chunks, ms, head, extra)
    decreases |chunks|
  {
    hide Drain, AreFramed, HasNoLength, InStepBefore, FeedsTo;
    var request := head + HEAD_BODY_SEPARATOR;
    var rest, total := request + extra, |Concat(ms)| + |request|;
    assert chunks != [];
    var grown, more := buffer + chunks[0], Concat(chunks[1..]);
    Associative(buffer, chunks[0], more);
    PrefixOfSum(grown, more, Concat(ms) + rest);
    DrainBefore(site, d, |buffer|, grown, ms, head, extra);
    DrainLosesNothing(site, d, grown);
    var now := Drain(site, d, grown);
    if |grown| < total {
      RestOfStream(site, |grown|, ms, now, grown, more, rest);
      BegunIsShort(site, |grown|, ms, |request|);
      StreamFeedsTo(site, now.progress, now.buffer, chunks[1..], Later(|grown|, ms), head, extra);
      FeedsOn(site, |grown|, total - |buffer|, chunks, ms, head, extra,
              FeedAll(site, now.progress, now.buffer, chunks[1..]));
    } else {
      StreamFeedsAfter(site, d, buffer, chunks, ms, head, extra);
    }
  }

  lemma {:induction false} BegunIsShort(site: Site, n: nat, ms: seq<string>, k: nat)
    requires n < |Concat(ms)| + k
    ensures Begun(n, ms) < |Concat(Later(n, ms))| + k
    ensures |Concat(Later(n, ms))| - Begun(n, ms) == |Concat(ms)| - n
  {
    if ms != [] && n >= |ms[0]| {
      BegunIsShort(site, n - |ms[0]|, ms[1..], k);
    }
  }

  lemma BodyWaits(before: string, grown: string, more: string, rest: string)
    requires grown + more == before + rest && |grown| >= |before|
    ensures grown[|before|..] + more == rest
  {
    assert (grown + more)[|before|..] == grown[|before|..] + more;
    assert (before + rest)[|before|..] == rest;
  }

  lemma FedOnce(site: Site, d: Progress, buffer: string, chunks: seq<string>)
    requires chunks != []
    ensures var r, now := FeedAll(site, d, buffer, chunks), Drain(site, d, buffer + chunks[0]);
            if now.threw then r == now
            else var later := FeedAll(site, now.progress, now.buffer, chunks[1..]);
                 r == later.(frames := now.frames + later.frames)
  {
  }

  /** The chunk that completes `head`. */
  lemma StreamFeedsAfter(site: Site, d: Progress, buffer: string, chunks: seq<string>,
                         ms: seq<string>, head: string, extra: string)
    requires chunks != [] && |head + HEAD_BODY_SEPARATOR + extra| < site.sizeMax
    requires buffer + Concat(chunks) == Concat(ms) + (head + HEAD_BODY_SEPARATOR + extra)
    requires var total := |Concat(ms)| + |head + HEAD_BODY_SEPARATOR|; |buffer| < total <= |buffer + chunks[0]|
    requires DrainsTo(site, Drain(site, d, buffer + chunks[0]), buffer + chunks[0], ms, head)
    ensures FeedsTo(site, FeedAll(site, d, buffer, chunks), |Concat(ms)| + |head + HEAD_BODY_SEPARATOR| - |buffer|,
                    chunks, ms, head, extra)
  {
    hide Drain, FeedAll, FeedsTo, DrainsTo;
    if site.isServer {
      ServerFeedsAfter(site, d, buffer, chunks, ms, head, extra);
    } else {
      ClientFeedsAfter(site, d, buffer, chunks, ms, head, extra);
    }
  }

  lemma ClientFeedsAfter(site: Site, d: Progress, buffer: string, chunks: seq<string>,
                         ms: seq<string>, head: string, extra: string)
    requires !site.isServer
    requires chunks != [] && |head + HEAD_BODY_SEPARATOR + extra| < site.sizeMax
    requires buffer + Concat(chunks) == Concat(ms) + (head + HEAD_BODY_SEPARATOR + extra)
    requires var total := |Concat(ms)| + |head + HEAD_BODY_SEPARATOR|; |buffer| < total <= |buffer + chunks[0]|
    requires DrainsTo(site, Drain(site, d, buffer + chunks[0]), buffer + chunks[0], ms, head)
    ensures FeedsTo(site, FeedAll(site, d, buffer, chunks), |Concat(ms)| + |head + HEAD_BODY_SEPARATOR| - |buffer|,
                    chunks, ms, head, extra)
  {
    hide Drain, FeedAll, Complete, Later, Begun, InStepBefore, HasCut;
    var before, grown, more := Concat(ms), buffer + chunks[0], Concat(chunks[1..]);
    Associative(buffer, chunks[0], more);
    FedOnce(site, d, buffer, chunks);
    BodyWaits(before, grown, more, head + HEAD_BODY_SEPARATOR + extra);
    ClientWaitsForever(site, |grown| - |before|, grown[|before|..], chunks[1..]);
    assert ms + [] == ms;
  }

  lemma ServerFeedsAfter(site: Site, d: Progress, buffer: string, chunks: seq<string>,
                         ms: seq<string>, head: string, extra: string)
    requires site.isServer
    requires chunks != [] && |head + HEAD_BODY_SEPARATOR + extra| < site.sizeMax
    requires buffer + Concat(chunks) == Concat(ms) + (head + HEAD_BODY_SEPARATOR + extra)
    requires var total := |Concat(ms)| + |head + HEAD_BODY_SEPARATOR|; |buffer| < total <= |buffer + chunks[0]|
    requires DrainsTo(site, Drain(site, d, buffer + chunks[0]), buffer + chunks[0], ms, head)
    ensures FeedsTo(site, FeedAll(site, d, buffer, chunks), |Concat(ms)| + |head + HEAD_BODY_SEPARATOR| - |buffer|,
                    chunks, ms, head, extra)
  {
    hide Drain, FeedAll, Complete, Later, Begun, InStepBefore;
    var request := head + HEAD_BODY_SEPARATOR;
    var before, grown, more := Concat(ms), buffer + chunks[0], Concat(chunks[1..]);
    Associative(buffer, chunks[0], more);
    FedOnce(site, d, buffer, chunks);
    if |grown| == |before| + |request| {
      BodyWaits(before, grown, more, request + extra);
      assert HasCut(|before| + |request| - |buffer|, chunks);
      assert extra == "" ==> |more| == 0;
      RequestWasTaken(site, ms + [request], chunks[1..]);
    }
  }

  /** What a server does behind a request that it took. */
  lemma RequestWasTaken(site: Site, taken: seq<string>, chunks: seq<string>)
    ensures var later := FeedAll(site, FRESH, "", chunks);
            && taken <= taken + later.frames
            && (|Concat(chunks)| == 0 ==> later == Received([], FRESH, "", false) && taken + later.frames == taken)
  {
    hide FeedAll;
    if |Concat(chunks)| == 0 {
      WholeStreamComesOut(site, [], chunks);
      assert taken + [] == taken;
    }
  }

  /** The exact outcome for every stream and every cutting of it: the messages that state
      their length are taken; then a client keeps the rest, and a server takes the request if
      and only if a chunk ends right behind it, and refuses it otherwise. */
  lemma WithoutLengthCutsDecide(site: Site, ms: seq<string>, head: string, extra: string, chunks: seq<string>)
    requires AreFramed(site, ms) && HasNoLength(head) && |head + HEAD_BODY_SEPARATOR + extra| < site.sizeMax
    requires Concat(chunks) == Concat(ms) + (head + HEAD_BODY_SEPARATOR + extra)
    ensures FeedsTo(site, FeedAll(site, FRESH, "", chunks), |Concat(ms)| + |head + HEAD_BODY_SEPARATOR|,
                    chunks, ms, head, extra)
  {
    hide FeedAll, FeedsTo, AreFramed, HasNoLength;
    assert "" + Concat(chunks) == Concat(chunks);
    FreshIsBefore(site, ms, head);
    StreamFeedsTo(site, FRESH, "", chunks, ms, head, extra);
  }

  ghost predicate ChunksDoNotMatter(site: Site, stream: string) {
    forall a: seq<string>, b: seq<string> | Concat(a) == stream && Concat(b) == stream ::
      FeedAll(site, FRESH, "", a) == FeedAll(site, FRESH, "", b)
  }

  lemma {:induction false} WholeStreamIsCut(chunks: seq<string>)
    ensures HasCut(|Concat(chunks)|, chunks)
  {
    if chunks != [] {
      WholeStreamIsCut(chunks[1..]);
    }
  }

  lemma ConcatOfTwo(a: string, b: string)
    ensures Concat([a, b]) == a + b && Concat([a + b]) == a + b
  {
    assert [a, b][1..] == [b] && [b][1..] == [] && [a + b][1..] == [];
    assert Concat([b]) == b + Concat<char>([]);
  }

  /** On a server the chunks do not matter if and only if nothing follows the request. */
  lemma WithoutLengthChunksMatterIff(site: Site, ms: seq<string>, head: string, extra: string)
    requires site.isServer && AreFramed(site, ms) && HasNoLength(head)
    requires |head + HEAD_BODY_SEPARATOR + extra| < site.sizeMax
    ensures var stream := Concat(ms) + (head + HEAD_BODY_SEPARATOR + extra);
            ChunksDoNotMatter(site, stream) <==> extra == ""
  {
    hide FeedAll, AreFramed, HasNoLength;
    var request := head + HEAD_BODY_SEPARATOR;
    var stream, upTo := Concat(ms) + (request + extra), Concat(ms) + request;
    if extra == "" {
      forall chunks: seq<string> | Concat(chunks) == stream
        ensures FeedAll(site, FRESH, "", chunks) == Received(ms + [request], FRESH, "", false)
      {
        WithoutLengthCutsDecide(site, ms, head, extra, chunks);
        WholeStreamIsCut(chunks);
      }
    } else {
      Associative(Concat(ms), request, extra);
      ConcatOfTwo(upTo, extra);
      WithoutLengthCutsDecide(site, ms, head, extra, [upTo, extra]);
      WithoutLengthCutsDecide(site, ms, head, extra, [stream]);
      assert HasCut(|upTo|, [upTo, extra]) && !HasCut(|upTo|, [stream]);
      assert FeedAll(site, FRESH, "", [upTo, extra]) != FeedAll(site, FRESH, "", [stream]);
    }
  }

  // ---- such messages exist ----------------------------------------------------------

  /** Every printed message without the header is such a message. */
  lemma PrintedHeadHasNoLength(m: Message)
    requires IsWellFormed(m) && Sorted(m.headers) && ValuesOf(m.headers, CONTENT_LENGTH) == []
    ensures HasNoLength(FirstStr(m.first) + SEPARATOR + Lines(m.headers))
  {
    hide FirstStr, IsReadable, ArePrintable, ParseHeader, Lines, NoGap;
    var head := FirstStr(m.first) + SEPARATOR + Lines(m.headers);
    LinesHaveNoGap(m.headers);
    SeparatorFound(FirstStr(m.first), Lines(m.headers), "");
    assert head + HEAD_BODY_SEPARATOR + "" == head + HEAD_BODY_SEPARATOR;
    HeaderReadsBack(m);
    assert ReadBack(m).headers[1..] == m.headers;
  }

  const BARE_REQUEST: Message := Message(Request("GET", "/"), [Entry("Host", "a")], "")

  /** An ordinary request without body, followed by the first char of the next one. */
  lemma PipelinedRequestDependsOnChunks(site: Site)
    requires site.isServer && |Serialized(BARE_REQUEST) + "G"| < site.sizeMax
    ensures !ChunksDoNotMatter(site, Serialized(BARE_REQUEST) + "G")
  {
    hide Serialized, ChunksDoNotMatter, Find;
    NoSeparatorWithoutLineFeed(FirstStr(BARE_REQUEST.first));
    var head := FirstStr(BARE_REQUEST.first) + SEPARATOR + Lines(BARE_REQUEST.headers);
    PrintedHeadHasNoLength(BARE_REQUEST);
    SerializedIs(BARE_REQUEST);
    assert Serialized(BARE_REQUEST) == head + HEAD_BODY_SEPARATOR;
    WithoutLengthChunksMatterIff(site, [], head, "G");
    assert Concat<char>([]) + (head + HEAD_BODY_SEPARATOR + "G") == Serialized(BARE_REQUEST) + "G";
  }
}
