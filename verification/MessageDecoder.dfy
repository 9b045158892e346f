/**
 Cutting frames out of the incoming buffer, and the result that makes a byte stream usable
 as a message channel: however the stream is cut into chunks, the same frames come out.
 */
module MessageDecoder {
  import opened BasicDetail
  import opened BinCodec
  import opened BinMessages
  import opened Helper
  import opened Optional
  import opened Sequences

  /** buffer.find(marker): the first end marker, or the length of the buffer. */
  function FindEnd(buffer: seq<byte>): (pos: nat)
    ensures pos <= |buffer|
    ensures pos < |buffer| ==> buffer[pos] == MESSAGE_END
    ensures forall i | 0 <= i < pos :: buffer[i] != MESSAGE_END
  {
    if buffer == [] || buffer[0] == MESSAGE_END then 0 else 1 + FindEnd(buffer[1..])
  }

  /** find_raw_message: the bounds of the first frame, empty at the end if there is none. */
  function FindRawMessage(buffer: seq<byte>): (bounds: (nat, nat)) {
    var pos := FindEnd(buffer);
    if pos < |buffer| then (0, pos + 1) else (|buffer|, |buffer|)
  }

  /** The wire form of a message body. */
  function Frame(body: seq<byte>): seq<byte> {
    Encode(body) + [MESSAGE_END]
  }

  /** What becomes of one cut frame: remove the marker, undo the escapes, look up the name,
      create the message and let it read its fields.  A header whose id fields do not fit
      counts as rejected. */
  function DecodeFrame(p: Platform, catalog: Catalog, frame: seq<byte>): Result<Message> {
    var raw := Decode(if frame == [] then [] else frame[..|frame| - 1]);
    if !raw.complete then
      Throws(InvalidEscape)
    else
      match MessageName(p, raw.text)
      case Throws(e) => Throws(e)
      case Ok(name) =>
        if name !in catalog.known then Throws(UnknownName)
        else if !HeaderFits(p, raw.text) then Throws(MalformedHeader)
        else Accepted(catalog, Unserialized(p, Message(name, UNDEFINED_MESSAGE_ID, UNDEFINED_MESSAGE_ID, []), raw.text))
  }

  /** The user's class has the last word on the tail. */
  function Accepted(catalog: Catalog, r: Result<Message>): Result<Message> {
    if r.Ok? && !catalog.accepts(r.value.name, r.value.tail) then Throws(TailRejected) else r
  }

  /** The first complete frame of a buffer and what follows it. */
  function FirstFrame(buffer: seq<byte>): Option<seq<byte>> {
    var pos := FindEnd(buffer);
    if pos < |buffer| then Some(buffer[..pos + 1]) else None
  }

  function AfterFirstFrame(buffer: seq<byte>): seq<byte> {
    match FirstFrame(buffer)
    case None => buffer
    case Some(f) => buffer[|f|..]
  }

  /** What a decode attempt makes of a buffer: None is the null pointer, a throw is a
      rejected frame. */
  function Taken(p: Platform, catalog: Catalog, buffer: seq<byte>): Option<Result<Message>> {
    match FirstFrame(buffer)
    case None => None
    case Some(f) => Some(DecodeFrame(p, catalog, f))
  }

  method EncodeRawMessage(buffer: ByteString)
    modifies buffer
    ensures buffer.text == Frame(old(buffer.text))
    ensures buffer.text == SpelledOut(old(buffer.text)) + [0xff] && 0xff !in SpelledOut(old(buffer.text))
  {
    EncodeIsSpelledOut(buffer.text);
    BinaryEncode(buffer);
    buffer.text := buffer.text + [MESSAGE_END];
  }

  method DecodeRawMessage(raw: ByteString) returns (ok: bool)
    requires raw.text != []
    modifies raw
    ensures Decoded(raw.text, ok) == Decode(old(raw.text[..|raw.text| - 1]))
  {
    raw.text := raw.text[..|raw.text| - 1];
    ok := BinaryDecode(raw);
  }

  /** perform_decode.  A frame that was found is gone from the buffer even when it is rejected. */
  method PerformDecode(p: Platform, catalog: Catalog, buffer: ByteString) returns (r: Option<Result<Message>>)
    modifies buffer
    ensures buffer.text == AfterFirstFrame(old(buffer.text))
    ensures r == Taken(p, catalog, old(buffer.text))
  {
    hide Decode, CountEnds;
    var bounds := FindRawMessage(buffer.text);
    if bounds.0 == bounds.1 {
      return None;
    }
    var raw := new ByteString(buffer.text[bounds.0..bounds.1]);
    buffer.text := buffer.text[..bounds.0] + buffer.text[bounds.1..];
    var ok := DecodeRawMessage(raw);
    if !ok {
      return Some(Throws(InvalidEscape));
    }
    var name := MessageName(p, raw.text);
    if name.Throws? {
      return Some(Throws(name.error));
    }
    if name.value !in catalog.known {
      return Some(Throws(UnknownName));
    }
    if !HeaderFits(p, raw.text) {
      return Some(Throws(MalformedHeader));
    }
    var message := new BinMessage(name.value);
    var read := message.Unserialize(catalog, p, raw.text);
    r := Some(read.IfOk(message.Value()));
  }

  // ---- one frame --------------------------------------------------------------------

  lemma FirstFrameOfWire(body: seq<byte>, after: seq<byte>)
    ensures FirstFrame(Frame(body) + after) == Some(Frame(body))
    ensures AfterFirstFrame(Frame(body) + after) == after
  {
    EncodeIsCanonical(body);
    var code := Encode(body);
    var stream := Frame(body) + after;
    forall i: nat | i < |code|
      ensures stream[i] != MESSAGE_END
    {
      assert CanonicalAt(code, i);
    }
    assert stream[|code|] == MESSAGE_END;
    assert FindEnd(stream) == |code|;
    assert stream[..|code| + 1] == Frame(body);
    assert stream[|code| + 1..] == after;
  }

  /** A message survives serialize, escape, frame, cut, unescape, name lookup and
      unserialize unchanged, and is rejected exactly when the receiver reads the length
      byte as a negative char or its message class refuses the tail. */
  lemma MessageRoundTrip(p: Platform, catalog: Catalog, m: Message)
    requires m.IdsFit(p) && Serialized(p, m).Some?
    ensures DecodeFrame(p, catalog, Frame(Serialized(p, m).value)) ==
            if HeaderLength(p, m) > 127 && p.signedChar then Throws(IncompleteHeader)
            else if m.name !in catalog.known then Throws(UnknownName)
            else if !catalog.accepts(m.name, m.tail) then Throws(TailRejected)
            else Ok(m)
  {
    var body := Serialized(p, m).value;
    assert Frame(body)[..|Frame(body)| - 1] == Encode(body);
    DecodeInvertsEncode(body);
    SerializedReadsBack(p, m);
  }

  /** A message with a name of 130 bytes and no ids: every sender takes it, and a receiver
      whose char is signed refuses it. */
  lemma LongNameIsRefused(catalog: Catalog, width: Width)
    ensures var p, m := Platform(width, true), Message(seq(130, _ => 0x41), 0, 0, []);
            m.IdsFit(p) && Serialized(p, m).Some? && HeaderLength(p, m) == 133
            && (m.name in catalog.known ==>
                  DecodeFrame(p, catalog, Frame(Serialized(p, m).value)) == Throws(IncompleteHeader))
  {
    var p, m := Platform(width, true), Message(seq(130, _ => 0x41), 0, 0, []);
    if m.name in catalog.known {
      MessageRoundTrip(p, catalog, m);
    }
  }

  /** One frame as bytes: version, header length, flags, name, id and tail, with the bytes
      0xff and 0xfe escaped wherever they come from, and the end marker. */
  lemma ExampleFrame(signedChar: bool)
    ensures var p, m := Platform(1, signedChar), Message([0x61], 0xff, 0, [0xfe]);
            && Serialized(p, m) == Some([0, 5, 1, 0x61, 0xff, 0xfe])
            && Frame(Serialized(p, m).value) == [0, 5, 1, 0x61, 0xfe, 0xbf, 0xfe, 0xbe, 0xff]
  {
    hide Serialized, Spelling;
    ExampleBody(signedChar);
    ExampleSpelling();
  }

  lemma ExampleBody(signedChar: bool)
    ensures Serialized(Platform(1, signedChar), Message([0x61], 0xff, 0, [0xfe])) == Some([0, 5, 1, 0x61, 0xff, 0xfe])
  {
    var p, m := Platform(1, signedChar), Message([0x61], 0xff, 0, [0xfe]);
    assert HeaderLength(p, m) == 5;
    SerializedLayout(p, m);
    var raw := Serialized(p, m).value;
    assert raw[4] == 0xff by {
      assert raw[3 + 1 + 0] == 0xff / Pow256(0) % 256;
    }
    assert raw[3..4] == [0x61] && raw[5..] == [0xfe];
    assert raw[3] == raw[3..4][0] && raw[5] == raw[5..][0];
    assert raw == [0, 5, 1, 0x61, 0xff, 0xfe];
  }

  lemma ExampleSpelling()
    ensures Encode([0, 5, 1, 0x61, 0xff, 0xfe]) == [0, 5, 1, 0x61, 0xfe, 0xbf, 0xfe, 0xbe]
  {
    hide Encode, SpelledOut;
    var raw: seq<byte> := [0, 5, 1, 0x61, 0xff, 0xfe];
    EncodeIsSpelledOut(raw);
    SpelledInTwo([0, 5, 1, 0x61], [0xff, 0xfe]);
    assert raw == [0, 5, 1, 0x61] + [0xff, 0xfe];
    PlainBytesAreSpelled([0, 5, 1, 0x61]);
    SpelledInTwo([0xff], [0xfe]);
    assert [0xff] + [0xfe] == [0xff, 0xfe];
    OneIsSpelled(0xff);
    OneIsSpelled(0xfe);
  }

  lemma OneIsSpelled(b: byte)
    ensures SpelledOut([b]) == Spelling(b)
  {
    assert [b][1..] == [];
  }

  lemma {:induction false} PlainBytesAreSpelled(s: seq<byte>)
    requires forall i | 0 <= i < |s| :: s[i] < 0xfe
    ensures SpelledOut(s) == s
  {
    if s != [] {
      PlainBytesAreSpelled(s[1..]);
    }
  }

  lemma {:induction false} SpelledInTwo(a: seq<byte>, b: seq<byte>)
    ensures SpelledOut(a + b) == SpelledOut(a) + SpelledOut(b)
  {
    if a == [] {
      assert a + b == b;
    } else {
      SpelledInTwo(a[1..], b);
      assert (a + b)[1..] == a[1..] + b;
      Associative(Spelling(a[0]), SpelledOut(a[1..]), SpelledOut(b));
    }
  }

  // ---- streams ----------------------------------------------------------------------

  /** Every complete frame of a byte stream, in order. */
  function Frames(stream: seq<byte>): seq<seq<byte>> {
    match FirstFrame(stream)
    case None => []
    case Some(f) => [f] + Frames(stream[|f|..])
  }

  /** What is left of a byte stream after its last complete frame. */
  function Rest(stream: seq<byte>): (rest: seq<byte>)
    ensures FirstFrame(rest) == None
  {
    match FirstFrame(stream)
    case None => stream
    case Some(f) => Rest(stream[|f|..])
  }

  function CountEnds(s: seq<byte>): nat {
    if s == [] then 0 else (if s[0] == MESSAGE_END then 1 else 0) + CountEnds(s[1..])
  }

  lemma FramesSplit(stream: seq<byte>)
    requires FirstFrame(stream).Some?
    ensures Frames(stream) == [FirstFrame(stream).value] + Frames(AfterFirstFrame(stream))
    ensures Rest(stream) == Rest(AfterFirstFrame(stream))
  {
  }

  lemma {:induction false} FindEndOfAppend(a: seq<byte>, b: seq<byte>)
    requires FindEnd(a) < |a|
    ensures FindEnd(a + b) == FindEnd(a)
  {
    if a[0] != MESSAGE_END {
      assert (a + b)[1..] == a[1..] + b;
      FindEndOfAppend(a[1..], b);
    }
  }

  lemma FirstFrameOfAppend(a: seq<byte>, b: seq<byte>)
    requires FirstFrame(a).Some?
    ensures FirstFrame(a + b) == FirstFrame(a)
    ensures AfterFirstFrame(a + b) == AfterFirstFrame(a) + b
  {
    var pos := FindEnd(a);
    FindEndOfAppend(a, b);
    assert (a + b)[..pos + 1] == a[..pos + 1];
    assert (a + b)[pos + 1..] == a[pos + 1..] + b;
  }

  /** Cutting early loses nothing: frames of a prefix are frames of the whole stream, and
      the rest of the prefix is where the next chunk continues. */
  lemma {:induction false} FramesOfAppend(a: seq<byte>, b: seq<byte>)
    ensures Frames(a + b) == Frames(a) + Frames(Rest(a) + b)
    ensures Rest(a + b) == Rest(Rest(a) + b)
    decreases |a|
  {
    if FirstFrame(a).Some? {
      var f := FirstFrame(a).value;
      FirstFrameOfAppend(a, b);
      FramesOfAppend(a[|f|..], b);
      FramesSplit(a + b);
      Associative([f], Frames(a[|f|..]), Frames(Rest(a[|f|..]) + b));
    } else {
      assert Frames(a) == [] && Rest(a) == a;
    }
  }

  lemma {:induction false} CountEndsOfAppend(a: seq<byte>, b: seq<byte>)
    ensures CountEnds(a + b) == CountEnds(a) + CountEnds(b)
  {
    if a == [] {
      assert a + b == b;
    } else {
      CountEndsOfAppend(a[1..], b);
      assert (a + b)[1..] == a[1..] + b;
    }
  }

  lemma {:induction false} CountEndsZero(s: seq<byte>)
    ensures CountEnds(s) == 0 <==> FindEnd(s) == |s|
  {
    if s != [] {
      CountEndsZero(s[1..]);
    }
  }

  /** Each frame taken, accepted or rejected, removes exactly one end marker, and a decode
      that yields nothing means that none is left: the decode loop needs no timer to end. */
  lemma TakingAFrameRemovesOneMarker(buffer: seq<byte>)
    ensures FirstFrame(buffer).None? <==> CountEnds(buffer) == 0
    ensures FirstFrame(buffer).Some? ==> CountEnds(AfterFirstFrame(buffer)) == CountEnds(buffer) - 1
  {
    CountEndsZero(buffer);
    if FirstFrame(buffer).Some? {
      var pos := FindEnd(buffer);
      var head, tail := buffer[..pos], buffer[pos + 1..];
      assert buffer == head + ([MESSAGE_END] + tail);
      CountEndsOfAppend(head, [MESSAGE_END] + tail);
      CountEndsOfAppend([MESSAGE_END], tail);
      assert CountEnds([MESSAGE_END]) == 1 + CountEnds([]);
      CountEndsZero(head);
      assert forall i | 0 <= i < |head| :: head[i] == buffer[i];
    }
  }

  /** The number of frames is the number of end markers. */
  lemma {:induction false} FramesCountMarkers(stream: seq<byte>)
    ensures |Frames(stream)| == CountEnds(stream)
    decreases |stream|
  {
    TakingAFrameRemovesOneMarker(stream);
    if FirstFrame(stream).Some? {
      FramesCountMarkers(AfterFirstFrame(stream));
    }
  }

  // ---- reassembly -------------------------------------------------------------------

  /** What can happen to the incoming buffer. */
  datatype BufferEvent = Arrive(chunk: seq<byte>) | TryDecode

  /** The frames taken from a buffer over some time, and the buffer that is left. */
  datatype Received = Received(frames: seq<seq<byte>>, buffer: seq<byte>)

  /** Running a buffer through any interleaving of arrivals and decode attempts. */
  function Receive(buffer: seq<byte>, events: seq<BufferEvent>): Received
    decreases |events|
  {
    if events == [] then
      Received([], buffer)
    else
      match events[0]
      case Arrive(chunk) => Receive(buffer + chunk, events[1..])
      case TryDecode =>
        match FirstFrame(buffer)
        case None => Receive(buffer, events[1..])
        case Some(f) =>
          var later := Receive(buffer[|f|..], events[1..]);
          Received([f] + later.frames, later.buffer)
  }

  function Arrived(events: seq<BufferEvent>): seq<byte> {
    if events == [] then []
    else if events[0].Arrive? then events[0].chunk + Arrived(events[1..])
    else Arrived(events[1..])
  }

  /** Nothing is lost, repeated or reordered on any byte stream under any schedule: the
      frames taken together with those the buffer still holds are those of all the bytes. */
  lemma {:induction false} ReceiveIsLossless(buffer: seq<byte>, events: seq<BufferEvent>)
    ensures var r := Receive(buffer, events);
            && r.frames + Frames(r.buffer) == Frames(buffer + Arrived(events))
            && Rest(r.buffer) == Rest(buffer + Arrived(events))
    decreases |events|
  {
    var all := buffer + Arrived(events);
    if events == [] {
      assert all == buffer;
    } else if events[0].Arrive? {
      ReceiveIsLossless(buffer + events[0].chunk, events[1..]);
      assert all == buffer + events[0].chunk + Arrived(events[1..]);
    } else if FirstFrame(buffer).Some? {
      var f, after := FirstFrame(buffer).value, AfterFirstFrame(buffer);
      ReceiveIsLossless(after, events[1..]);
      FirstFrameOfAppend(buffer, Arrived(events[1..]));
      FramesSplit(all);
      var later := Receive(after, events[1..]);
      assert ([f] + later.frames) + Frames(later.buffer) == [f] + (later.frames + Frames(later.buffer));
    } else {
      ReceiveIsLossless(buffer, events[1..]);
    }
  }

  /** Each chunk in turn is appended and then cut until nothing complete is left. */
  function FeedAll(buffer: seq<byte>, chunks: seq<seq<byte>>): Received
    decreases |chunks|
  {
    if chunks == [] then
      Received([], buffer)
    else
      var grown := buffer + chunks[0];
      var later := FeedAll(Rest(grown), chunks[1..]);
      Received(Frames(grown) + later.frames, later.buffer)
  }

  /** The chunk boundaries do not matter: only the bytes do. */
  lemma {:induction false} FeedAllIsChunkIndependent(buffer: seq<byte>, chunks: seq<seq<byte>>)
    requires FirstFrame(buffer) == None
    ensures FeedAll(buffer, chunks) == Received(Frames(buffer + Concat(chunks)), Rest(buffer + Concat(chunks)))
    decreases |chunks|
  {
    if chunks == [] {
      assert buffer + Concat(chunks) == buffer;
    } else {
      var grown, later := buffer + chunks[0], Concat(chunks[1..]);
      FeedAllIsChunkIndependent(Rest(grown), chunks[1..]);
      FramesOfAppend(grown, later);
      assert buffer + Concat(chunks) == grown + later;
    }
  }

  /** The wire forms of a list of message bodies. */
  function FramesOf(bodies: seq<seq<byte>>): (fs: seq<seq<byte>>)
    ensures |fs| == |bodies|
    ensures forall i | 0 <= i < |fs| :: fs[i] == Frame(bodies[i])
  {
    if bodies == [] then [] else [Frame(bodies[0])] + FramesOf(bodies[1..])
  }

  /** A stream of frames is cut exactly at the places where it was joined. */
  lemma {:induction false} FramesOfWire(bodies: seq<seq<byte>>)
    ensures Frames(Concat(FramesOf(bodies))) == FramesOf(bodies)
    ensures Rest(Concat(FramesOf(bodies))) == []
  {
    if bodies != [] {
      var later := Concat(FramesOf(bodies[1..]));
      FramesOfWire(bodies[1..]);
      FirstFrameOfWire(bodies[0], later);
      assert FramesOf(bodies)[1..] == FramesOf(bodies[1..]);
    }
  }

  /** A message that can be sent and whose header every receiver reads correctly. */
  ghost predicate Deliverable(p: Platform, catalog: Catalog, m: Message) {
    && m.IdsFit(p) && m.name in catalog.known && catalog.accepts(m.name, m.tail)
    && Serialized(p, m).Some?
    && (p.signedChar ==> HeaderLength(p, m) <= 127)
  }

  /** The bytes of each message, empty for one that cannot be serialized. */
  function Bodies(p: Platform, ms: seq<Message>): (bodies: seq<seq<byte>>)
    ensures |bodies| == |ms|
    ensures forall i | 0 <= i < |ms| && Serialized(p, ms[i]).Some? :: bodies[i] == Serialized(p, ms[i]).value
  {
    if ms == [] then []
    else [match Serialized(p, ms[0]) case Some(s) => s case None => []] + Bodies(p, ms[1..])
  }

  /** Messages in, the same messages out, however the network cuts the stream. */
  lemma AnyChunkingReassembles(p: Platform, catalog: Catalog, ms: seq<Message>, chunks: seq<seq<byte>>)
    requires forall i | 0 <= i < |ms| :: Deliverable(p, catalog, ms[i])
    requires Concat(chunks) == Concat(FramesOf(Bodies(p, ms)))
    ensures var r := FeedAll([], chunks);
            && |r.frames| == |ms|
            && (forall i | 0 <= i < |ms| :: DecodeFrame(p, catalog, r.frames[i]) == Ok(ms[i]))
            && r.buffer == []
  {
    FeedAllIsChunkIndependent([], chunks);
    assert [] + Concat(chunks) == Concat(chunks);
    var bodies := Bodies(p, ms);
    FramesOfWire(bodies);
    forall i | 0 <= i < |ms|
      ensures DecodeFrame(p, catalog, FramesOf(bodies)[i]) == Ok(ms[i])
    {
      MessageRoundTrip(p, catalog, ms[i]);
    }
  }
}
