/**
 The HTTP message decoder: it remembers between calls how long the message at the front of
 the buffer is, and how large the buffer was.  For messages that state their length the
 chunks in which they arrive do not matter.
 */
module HttpFraming {
  import opened HttpHeaders
  import opened HttpMessages
  import opened HttpRoundTrips
  import opened Optional
  import opened Sequences

  const CONTENT_LENGTH: string := "Content-Length"

  /** lexical_cast<size_t>, where None is an exception; the largest size_t; and the side of
      the connection. */
  datatype Site = Site(sizeOf: string -> Option<nat>, sizeMax: nat, isServer: bool)

  /** `_length`, zero while the header is not complete, and `_last_buf_size`. */
  datatype Progress = Progress(length: nat, lastBufSize: nat)

  const FRESH: Progress := Progress(0, 0)

  datatype Failure = BadRequest | BadLength | LengthRequired

  /** The bounds that find_raw_message returns: none, or the first `size` chars. */
  datatype Outcome = Nothing | Whole(size: nat) | Throws(failure: Failure)

  function FindRawMessage(site: Site, d: Progress, buffer: string): (r: (Progress, Outcome))
    ensures r.1.Whole? ==> r.0 == FRESH && r.1.size <= |buffer|
  {
    if d.lastBufSize == |buffer| then (d, Nothing)
    else if d.length == 0 then ReadHeader(site, d.(lastBufSize := |buffer|), buffer)
    else if d.length <= |buffer| then (FRESH, Whole(d.length))
    else (d.(lastBufSize := |buffer|), Nothing)
  }

  function ReadHeader(site: Site, d: Progress, buffer: string): (r: (Progress, Outcome))
    ensures r.1.Whole? ==> r.0 == FRESH && r.1.size <= |buffer|
  {
    match Find(buffer, HEAD_BODY_SEPARATOR)
    case None => (d, Nothing)
    case Some(i) =>
      match ParseHeader(buffer[..i])
      case None => (d, Throws(BadRequest))
      case Some(headers) => ReadLength(site, d, buffer, i + |HEAD_BODY_SEPARATOR|, ValuesOf(headers, CONTENT_LENGTH))
  }

  /** `body` is where the body starts. */
  function ReadLength(site: Site, d: Progress, buffer: string, body: nat, lengths: seq<string>): (r: (Progress, Outcome))
    requires body <= |buffer|
    ensures r.1.Whole? ==> r.0 == FRESH && r.1.size <= |buffer|
  {
    if lengths == [] then
      if !site.isServer then (d.(length := site.sizeMax), Nothing)
      else if body == |buffer| then (FRESH, Whole(|buffer|))
      else (d, Throws(LengthRequired))
    else
      match site.sizeOf(lengths[0])
      case None => (d, Throws(BadLength))
      case Some(n) =>
        var total := if n == 0 then body else (n + body) % (site.sizeMax + 1);
        if total <= |buffer| then (FRESH, Whole(total)) else (d.(length := total), Nothing)
  }

  class HttpDecoder {
    var length: nat
    var lastBufSize: nat

    constructor ()
      ensures State() == FRESH
    {
      length, lastBufSize := 0, 0;
    }

    function State(): Progress
      reads this
    {
      Progress(length, lastBufSize)
    }

    method FinishDecode() returns (bounds: Outcome)
      modifies this
      ensures State() == FRESH && bounds == Whole(old(length))
    {
      var tmp := length;
      length, lastBufSize := 0, 0;
      return Whole(tmp);
    }

    method FindRaw(site: Site, buffer: string) returns (bounds: Outcome)
      modifies this
      ensures (State(), bounds) == FindRawMessage(site, old(State()), buffer)
    {
      hide ParseHeader, Find, ValuesOf;
      bounds := Nothing;
      if lastBufSize == |buffer| {
        return;
      }
      lastBufSize := |buffer|;
      if length != 0 {
        if length <= |buffer| {
          bounds := FinishDecode();
        }
        return;
      }
      var i := Find(buffer, HEAD_BODY_SEPARATOR);
      if i.None? {
        return;
      }
      var headers := ParseHeaderText(buffer[..i.value]);
      if headers.None? {
        return Throws(BadRequest);
      }
      var body := i.value + |HEAD_BODY_SEPARATOR|;
      var lengths := ValuesOf(headers.value, CONTENT_LENGTH);
      if lengths != [] {
        var n := site.sizeOf(lengths[0]);
        if n.None? {
          return Throws(BadLength);
        }
        length := n.value;
        if length == 0 {
          length := body;
          bounds := FinishDecode();
        } else {
          length := (length + body) % (site.sizeMax + 1);
          if length <= |buffer| {
            bounds := FinishDecode();
          }
        }
      } else if site.isServer {
        if body == |buffer| {
          length := |buffer|;
          bounds := FinishDecode();
        } else {
          return Throws(LengthRequired);
        }
      } else {
        length := site.sizeMax;
      }
    }
  }

  // ---- decoding a stream ------------------------------------------------------------

  datatype Received = Received(frames: seq<string>, progress: Progress, buffer: string, threw: bool)

  /** The decode loop on a buffer, until it finds nothing or throws. */
  function Drain(site: Site, d: Progress, buffer: string): Received
    decreases |buffer|
  {
    match FindRawMessage(site, d, buffer)
    case (d1, Nothing) => Received([], d1, buffer, false)
    case (d1, Throws(_)) => Received([], d1, buffer, true)
    case (d1, Whole(n)) =>
      if n == 0 then Received([], d1, buffer, false)
      else
        var later := Drain(site, d1, buffer[n..]);
        later.(frames := [buffer[..n]] + later.frames)
  }

  /** Each chunk in turn is appended and the buffer drained. */
  function FeedAll(site: Site, d: Progress, buffer: string, chunks: seq<string>): Received
    decreases |chunks|
  {
    if chunks == [] then Received([], d, buffer, false)
    else
      var now := Drain(site, d, buffer + chunks[0]);
      if now.threw then now
      else
        var later := FeedAll(site, now.progress, now.buffer, chunks[1..]);
        later.(frames := now.frames + later.frames)
  }

  // ---- messages that state their length ---------------------------------------------

  function HeadLength(m: string): nat {
    match Find(m, HEAD_BODY_SEPARATOR)
    case None => |m|
    case Some(i) => i + |HEAD_BODY_SEPARATOR|
  }

  /** A message whose Content-Length is the length of its body. */
  predicate IsFramed(site: Site, m: string) {
    && Find(m, HEAD_BODY_SEPARATOR).Some? && |m| <= site.sizeMax
    && var headers := ParseHeader(m[..Find(m, HEAD_BODY_SEPARATOR).value]);
       && headers.Some? && ValuesOf(headers.value, CONTENT_LENGTH) != []
       && site.sizeOf(ValuesOf(headers.value, CONTENT_LENGTH)[0]) == Some(|m| - HeadLength(m))
  }

  ghost predicate AreFramed(site: Site, ms: seq<string>) {
    forall i | 0 <= i < |ms| :: IsFramed(site, ms[i])
  }

  /** One of the two is the beginning of the other. */
  predicate Agree(a: string, b: string) {
    a <= b || b <= a
  }

  /** What the decoder remembers when it last looked at the first `seen` chars of `m`: zero
      or exactly the total length of the message. */
  predicate InStep(d: Progress, seen: nat, m: string) {
    seen < |m| && d == Progress(if seen >= HeadLength(m) then |m| else 0, seen)
  }

  lemma HeadIsFoundOnceComplete(buffer: string, m: string)
    requires Agree(buffer, m) && Find(m, HEAD_BODY_SEPARATOR).Some?
    ensures var i := Find(m, HEAD_BODY_SEPARATOR).value;
            if |buffer| < HeadLength(m) then Find(buffer, HEAD_BODY_SEPARATOR) == None
            else Find(buffer, HEAD_BODY_SEPARATOR) == Some(i) && buffer[..i] == m[..i]
  {
    var i := Find(m, HEAD_BODY_SEPARATOR).value;
    forall j: nat | j < i
      ensures !At(buffer, HEAD_BODY_SEPARATOR, j)
    {
      AtPrefix(buffer, m, HEAD_BODY_SEPARATOR, j);
    }
    if |buffer| >= HeadLength(m) {
      AtPrefix(buffer, m, HEAD_BODY_SEPARATOR, i);
      FindIs(buffer, HEAD_BODY_SEPARATOR, i);
    }
  }

  lemma AtPrefix(a: string, b: string, pattern: string, j: nat)
    requires Agree(a, b) && j + |pattern| <= |b|
    ensures At(a, pattern, j) <==> j + |pattern| <= |a| && At(b, pattern, j)
  {
  }

  lemma LengthIsTotal(site: Site, d: Progress, buffer: string, body: nat, lengths: seq<string>, total: nat)
    requires body <= |buffer| && body <= total <= site.sizeMax
    requires lengths != [] && site.sizeOf(lengths[0]) == Some(total - body)
    ensures ReadLength(site, d, buffer, body, lengths) ==
            if total <= |buffer| then (FRESH, Whole(total)) else (d.(length := total), Nothing)
  {
    StaysBelow(total, site.sizeMax + 1);
  }

  lemma StaysBelow(sum: nat, modulus: nat)
    requires sum < modulus
    ensures sum % modulus == sum
  {
  }

  lemma HeaderGivesTotal(site: Site, d: Progress, buffer: string, m: string)
    requires IsFramed(site, m) && Agree(buffer, m)
    ensures ReadHeader(site, d, buffer) ==
            if |buffer| < HeadLength(m) then (d, Nothing)
            else if |m| <= |buffer| then (FRESH, Whole(|m|))
            else (d.(length := |m|), Nothing)
  {
    hide ParseHeader, Find, ReadLength;
    HeadIsFoundOnceComplete(buffer, m);
    if |buffer| >= HeadLength(m) {
      var headers := ParseHeader(m[..Find(m, HEAD_BODY_SEPARATOR).value]).value;
      LengthIsTotal(site, d, buffer, HeadLength(m), ValuesOf(headers, CONTENT_LENGTH), |m|);
    }
  }

  /** Looking at a buffer that begins with, or is a beginning of, the current message. */
  lemma FindsExactlyTheMessage(site: Site, d: Progress, seen: nat, buffer: string, m: string)
    requires IsFramed(site, m) && InStep(d, seen, m) && seen <= |buffer| && Agree(buffer, m)
    ensures var (d1, outcome) := FindRawMessage(site, d, buffer);
            if |buffer| >= |m| then d1 == FRESH && outcome == Whole(|m|)
            else InStep(d1, |buffer|, m) && outcome == Nothing
  {
    hide ReadHeader, ParseHeader, Find;
    HeaderGivesTotal(site, d.(lastBufSize := |buffer|), buffer, m);
    assert HeadLength(m) <= |m| by { HeadFits(m); }
  }

  lemma HeadFits(m: string)
    ensures HeadLength(m) <= |m|
  {
  }

  /** The messages that are complete within the first `n` chars, and the rest of the list. */
  function Complete(n: nat, ms: seq<string>): seq<string> {
    if ms == [] || n < |ms[0]| then [] else [ms[0]] + Complete(n - |ms[0]|, ms[1..])
  }

  function Later(n: nat, ms: seq<string>): seq<string> {
    if ms == [] || n < |ms[0]| then ms else Later(n - |ms[0]|, ms[1..])
  }

  /** How many chars of the first incomplete message there are. */
  function Begun(n: nat, ms: seq<string>): nat {
    if ms == [] || n < |ms[0]| then n else Begun(n - |ms[0]|, ms[1..])
  }

  predicate InStepWith(d: Progress, seen: nat, ms: seq<string>) {
    if ms == [] then seen == 0 && d == FRESH else InStep(d, seen, ms[0])
  }

  lemma FreshIsInStep(site: Site, ms: seq<string>)
    requires AreFramed(site, ms)
    ensures InStepWith(FRESH, 0, ms)
  {
  }

  lemma PrefixOfConcat(buffer: string, first: string, later: string)
    requires buffer <= first + later
    ensures Agree(buffer, first)
    ensures |buffer| >= |first| ==> buffer[..|first|] == first && buffer[|first|..] <= later
  {
  }

  /** The complete messages are taken, in order, and the beginning of the next one is left. */
  predicate TakesComplete(r: Received, buffer: string, ms: seq<string>) {
    && r.frames == Complete(|buffer|, ms) && !r.threw
    && InStepWith(r.progress, |r.buffer|, Later(|buffer|, ms))
    && |r.buffer| == Begun(|buffer|, ms) && r.buffer <= Concat(Later(|buffer|, ms))
    && buffer == Concat(r.frames) + r.buffer
  }

  lemma OneMoreIsTaken(later: Received, buffer: string, ms: seq<string>)
    requires ms != [] && ms[0] <= buffer && TakesComplete(later, buffer[|ms[0]|..], ms[1..])
    ensures TakesComplete(later.(frames := [ms[0]] + later.frames), buffer, ms)
  {
    hide InStepWith;
    assert buffer == ms[0] + (Concat(later.frames) + later.buffer);
    ConcatCons(ms[0], later.frames);
    Associative(ms[0], Concat(later.frames), later.buffer);
  }

  /** One drain of a buffer takes the messages that are complete and no others. */
  lemma {:induction false} DrainTakesComplete(site: Site, d: Progress, seen: nat, buffer: string, ms: seq<string>)
    requires AreFramed(site, ms) && InStepWith(d, seen, ms) && seen <= |buffer| && buffer <= Concat(ms)
    ensures TakesComplete(Drain(site, d, buffer), buffer, ms)
    decreases |ms|
  {
    hide FindRawMessage, IsFramed;
    if ms == [] {
      EmptyBufferHasNothing(site);
      assert buffer == [];
    } else {
      FindsExactlyTheMessage(site, d, seen, buffer, ms[0]) by {
        PrefixOfConcat(buffer, ms[0], Concat(ms[1..]));
      }
      PrefixOfConcat(buffer, ms[0], Concat(ms[1..]));
      if |buffer| >= |ms[0]| {
        hide TakesComplete;
        FreshIsInStep(site, ms[1..]);
        DrainTakesComplete(site, FRESH, 0, buffer[|ms[0]|..], ms[1..]);
        OneMoreIsTaken(Drain(site, FRESH, buffer[|ms[0]|..]), buffer, ms);
      }
    }
  }

  lemma EmptyBufferHasNothing(site: Site)
    ensures FindRawMessage(site, FRESH, "") == (FRESH, Nothing)
  {
  }

  lemma {:induction false} LaterOfMore(n: nat, k: nat, ms: seq<string>)
    ensures Complete(n + k, ms) == Complete(n, ms) + Complete(Begun(n, ms) + k, Later(n, ms))
    ensures Later(n + k, ms) == Later(Begun(n, ms) + k, Later(n, ms))
    ensures Begun(n + k, ms) == Begun(Begun(n, ms) + k, Later(n, ms))
    decreases |ms|
  {
    if ms != [] && n >= |ms[0]| {
      LaterOfMore(n - |ms[0]|, k, ms[1..]);
      Associative([ms[0]], Complete(n - |ms[0]|, ms[1..]), Complete(Begun(n, ms) + k, Later(n, ms)));
    }
  }

  lemma PrefixOfSum(buffer: string, more: string, all: string)
    requires buffer + more <= all
    ensures buffer <= all
  {
  }

  lemma {:induction false} FeedKeepsStep(site: Site, d: Progress, buffer: string, chunks: seq<string>, ms: seq<string>)
    requires AreFramed(site, ms) && InStepWith(d, |buffer|, ms) && buffer + Concat(chunks) <= Concat(ms)
    ensures var r, n := FeedAll(site, d, buffer, chunks), |buffer| + |Concat(chunks)|;
            && r.frames == Complete(n, ms) && !r.threw && InStepWith(r.progress, |r.buffer|, Later(n, ms))
            && buffer + Concat(chunks) == Concat(r.frames) + r.buffer
    decreases |chunks|
  {
    hide Drain, IsFramed, InStepWith;
    if chunks == [] {
      assert buffer + [] == buffer;
      NothingComplete(site, d, buffer, ms);
    } else {
      var grown, more := buffer + chunks[0], Concat(chunks[1..]);
      Associative(buffer, chunks[0], more);
      PrefixOfSum(grown, more, Concat(ms));
      DrainTakesComplete(site, d, |buffer|, grown, ms);
      var now := Drain(site, d, grown);
      LaterIsFramed(site, |grown|, ms);
      RestOfSum(grown, more, now.frames, now.buffer, |grown|, ms);
      FeedKeepsStep(site, now.progress, now.buffer, chunks[1..], Later(|grown|, ms));
      LaterOfMore(|grown|, |more|, ms);
      ConcatOfSum(now.frames, FeedAll(site, now.progress, now.buffer, chunks[1..]).frames);
      var later := FeedAll(site, now.progress, now.buffer, chunks[1..]);
      Associative(Concat(now.frames), now.buffer, more);
      Associative(Concat(now.frames), Concat(later.frames), later.buffer);
    }
  }

  lemma {:induction false} ConcatOfSum(a: seq<string>, b: seq<string>)
    ensures Concat(a + b) == Concat(a) + Concat(b)
  {
    if a == [] {
      assert a + b == b;
    } else {
      ConcatOfSum(a[1..], b);
      assert (a + b)[1..] == a[1..] + b;
      Associative(a[0], Concat(a[1..]), Concat(b));
    }
  }

  lemma {:induction false} LaterIsFramed(site: Site, n: nat, ms: seq<string>)
    requires AreFramed(site, ms)
    ensures AreFramed(site, Later(n, ms)) && Concat(ms) == Concat(Complete(n, ms)) + Concat(Later(n, ms))
    decreases |ms|
  {
    if ms != [] && n >= |ms[0]| {
      LaterIsFramed(site, n - |ms[0]|, ms[1..]);
      assert ([ms[0]] + Complete(n - |ms[0]|, ms[1..]))[1..] == Complete(n - |ms[0]|, ms[1..]);
      Associative(ms[0], Concat(Complete(n - |ms[0]|, ms[1..])), Concat(Later(n, ms)));
    }
  }

  lemma RestOfSum(grown: string, more: string, frames: seq<string>, rest: string, n: nat, ms: seq<string>)
    requires grown + more <= Concat(ms) && grown == Concat(frames) + rest && frames == Complete(n, ms)
    requires Concat(ms) == Concat(Complete(n, ms)) + Concat(Later(n, ms))
    ensures rest + more <= Concat(Later(n, ms))
  {
    var done, later := Concat(frames), Concat(Later(n, ms));
    assert grown + more == done + (rest + more);
    assert (done + (rest + more)) <= done + later;
    assert (done + later)[..|done| + |rest + more|][|done|..] == later[..|rest + more|];
    assert (done + (rest + more))[|done|..] == rest + more;
  }

  lemma NothingComplete(site: Site, d: Progress, buffer: string, ms: seq<string>)
    requires InStepWith(d, |buffer|, ms)
    ensures Complete(|buffer|, ms) == [] && Later(|buffer|, ms) == ms && Concat<char>([]) + buffer == buffer
  {
  }

  /** Framing does not depend on the chunks: however a stream of messages that state their
      length is cut, the messages taken are those complete within the bytes received, and the
      decoder remembers zero or the exact length of the message it is in. */
  lemma FramingIsChunkIndependent(site: Site, ms: seq<string>, chunks: seq<string>)
    requires AreFramed(site, ms) && Concat(chunks) <= Concat(ms)
    ensures var r, n := FeedAll(site, FRESH, "", chunks), |Concat(chunks)|;
            && r.frames == Complete(n, ms) && !r.threw
            && Concat(chunks) == Concat(r.frames) + r.buffer
            && var later := Later(n, ms);
               r.progress.length == if later != [] && |r.buffer| >= HeadLength(later[0]) then |later[0]| else 0
  {
    hide FeedAll, Complete, Concat, IsFramed, HeadLength;
    FreshIsInStep(site, ms);
    assert "" + Concat(chunks) == Concat(chunks);
    FeedKeepsStep(site, FRESH, "", chunks, ms);
  }

  lemma {:induction false} AllAreComplete(ms: seq<string>)
    ensures Complete(|Concat(ms)|, ms) == ms && Later(|Concat(ms)|, ms) == []
  {
    if ms != [] {
      AllAreComplete(ms[1..]);
    }
  }

  /** A whole stream comes out as it was sent, and the decoder is as new. */
  lemma WholeStreamComesOut(site: Site, ms: seq<string>, chunks: seq<string>)
    requires AreFramed(site, ms) && Concat(chunks) == Concat(ms)
    ensures FeedAll(site, FRESH, "", chunks) == Received(ms, FRESH, "", false)
  {
    hide FeedAll, Complete, Later, Concat, IsFramed;
    FreshIsInStep(site, ms);
    assert "" + Concat(chunks) == Concat(chunks);
    FeedKeepsStep(site, FRESH, "", chunks, ms);
    AllAreComplete(ms);
  }

  /** Every printed message whose Content-Length header is the length of its body is such a
      message. */
  lemma PrintedMessageIsFramed(site: Site, m: Message)
    requires IsWellFormed(m) && Sorted(m.headers) && |Serialized(m)| <= site.sizeMax
    requires ValuesOf(m.headers, CONTENT_LENGTH) != [] && site.sizeOf(ValuesOf(m.headers, CONTENT_LENGTH)[0]) == Some(|m.data|)
    ensures IsFramed(site, Serialized(m))
  {
    hide Serialized, FirstStr, IsReadable, ArePrintable, ParseHeader, Lines, NoGap;
    var block := FirstStr(m.first) + SEPARATOR + Lines(m.headers);
    SerializedIs(m);
    LinesHaveNoGap(m.headers);
    SeparatorFound(FirstStr(m.first), Lines(m.headers), m.data);
    assert Serialized(m)[..|block|] == block;
    HeaderReadsBack(m);
    assert ReadBack(m).headers[1..] == m.headers;
  }

  /** Why a first look at a buffer throws: a header that cannot be parsed, a length that is no
      number, or, on a server, none at all with something behind the header. */
  lemma FirstLookThrowsIff(site: Site, d: Progress, buffer: string, failure: Failure)
    requires d.length == 0 && d.lastBufSize != |buffer|
    ensures FindRawMessage(site, d, buffer).1 == Throws(failure) <==>
              match Find(buffer, HEAD_BODY_SEPARATOR)
              case None => false
              case Some(i) =>
                match ParseHeader(buffer[..i])
                case None => failure.BadRequest?
                case Some(headers) =>
                  var lengths := ValuesOf(headers, "Content-Length");
                  if failure.BadLength? then lengths != [] && site.sizeOf(lengths[0]).None?
                  else failure.LengthRequired? && lengths == [] && site.isServer && i + 4 < |buffer|
  {
    hide Find, ParseHeader, ValuesOf;
  }

  /** The decoder does not look twice at the same buffer: what was not found, or was refused,
      is neither looked for nor refused again until more has arrived. */
  lemma SecondLookFindsNothing(site: Site, d: Progress, buffer: string)
    requires !FindRawMessage(site, d, buffer).1.Whole?
    ensures var r := FindRawMessage(site, d, buffer); FindRawMessage(site, r.0, buffer) == (r.0, Nothing)
  {
    hide Find, ParseHeader, ValuesOf;
  }

  /** A length so large that adding the header overflows size_t: the decoder finds a message
      at once, and it ends inside its own header. */
  lemma HugeLengthEndsInHeader(site: Site, d: Progress, buffer: string, i: nat, headers: seq<Entry>, n: nat)
    requires d.length == 0 && d.lastBufSize != |buffer| && |buffer| <= site.sizeMax
    requires Find(buffer, HEAD_BODY_SEPARATOR) == Some(i) && ParseHeader(buffer[..i]) == Some(headers)
    requires ValuesOf(headers, "Content-Length") != [] && site.sizeOf(ValuesOf(headers, "Content-Length")[0]) == Some(n)
    requires n <= site.sizeMax < n + (i + 4)
    ensures FindRawMessage(site, d, buffer) == (FRESH, Whole(n + (i + 4) - (site.sizeMax + 1)))
    ensures n + (i + 4) - (site.sizeMax + 1) < i + 4
  {
    hide Find, ParseHeader, ValuesOf, ReadLength;
    HugeLengthWraps(site, d.(lastBufSize := |buffer|), buffer, i + 4, ValuesOf(headers, "Content-Length"), n);
  }

  lemma HugeLengthWraps(site: Site, d: Progress, buffer: string, body: nat, lengths: seq<string>, n: nat)
    requires body <= |buffer| <= site.sizeMax && lengths != [] && site.sizeOf(lengths[0]) == Some(n)
    requires n <= site.sizeMax < n + body
    ensures ReadLength(site, d, buffer, body, lengths) == (FRESH, Whole(n + body - (site.sizeMax + 1)))
  {
    WrapsOnce(n + body, site.sizeMax + 1);
  }

  lemma WrapsOnce(sum: nat, modulus: nat)
    requires modulus <= sum < 2 * modulus
    ensures sum % modulus == sum - modulus
  {
  }
}
