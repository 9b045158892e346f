/**
 Two communicators joined by two byte streams.  Every frame reaches the wire whole and in
 the order of the writes; the network cuts the streams into chunks as it likes.  Each side
 runs all the steps of CommStates, and the sides interleave freely.
 */
module Peers {
  import opened BasicDetail
  import opened BinCodec
  import opened BinMessages
  import opened CommHistories
  import opened CommIds
  import opened CommStates
  import opened MessageDecoder
  import opened MessageIds
  import opened Optional
  import opened Sequences

  datatype Side = A | B {
    function Other(): Side {
      if A? then B else A
    }
  }

  datatype Configs = Configs(a: Config, b: Config) {
    function Of(side: Side): Config {
      if side.A? then a else b
    }

    /** Both peers were built for the same platform and let unicomm give out the ids. */
    predicate Compatible() {
      a.platform == b.platform && a.useUniqueMessageId && b.useUniqueMessageId
    }
  }

  /** `fromA` and `fromB` are the bytes each side wrote and the other has not read. */
  datatype Net = Net(a: State, b: State, fromA: seq<byte>, fromB: seq<byte>) {
    function Of(side: Side): State {
      if side.A? then a else b
    }

    function From(side: Side): seq<byte> {
      if side.A? then fromA else fromB
    }

    function WithState(side: Side, s: State): Net {
      if side.A? then this.(a := s) else this.(b := s)
    }

    function WithFrom(side: Side, bytes: seq<byte>): Net {
      if side.A? then this.(fromA := bytes) else this.(fromB := bytes)
    }

    /** The bytes written by `side` and not yet decoded by the other side. */
    function Stream(side: Side): seq<byte> {
      Of(side.Other()).inBuffer + From(side)
    }
  }

  datatype NetStep = NetStep(side: Side, step: Step)

  const INITIAL_NET: Net := Net(INITIAL_STATE, INITIAL_STATE, [], [])

  predicate NetFits(cs: Configs, n: Net) {
    n.a.CountersFit(cs.a) && n.b.CountersFit(cs.b)
  }

  predicate NetEnabled(cs: Configs, n: Net, ns: NetStep) {
    && Enabled(cs.Of(ns.side), n.Of(ns.side), ns.step)
    && (ns.step.ReadCompleted? ==> ns.step.chunk <= n.From(ns.side.Other()))
  }

  function NetApply(cs: Configs, n: Net, ns: NetStep): (r: Net)
    requires NetFits(cs, n) && NetEnabled(cs, n, ns)
    ensures NetFits(cs, r)
  {
    var s := n.Of(ns.side);
    var s' := Apply(cs.Of(ns.side), s, ns.step);
    var n' := n.WithState(ns.side, s');
    match ns.step
    case StartWrite(_) => n'.WithFrom(ns.side, n.From(ns.side) + Written(cs.Of(ns.side), s, ns.step))
    case ReadCompleted(chunk) => n'.WithFrom(ns.side.Other(), n.From(ns.side.Other())[|chunk|..])
    case _ => n'
  }

  /** The bytes that a started write puts on the wire: the buffer of its entry. */
  function Written(c: Config, s: State, step: Step): seq<byte>
    requires s.CountersFit(c) && step.StartWrite? && step.front < |s.queue|
  {
    if s.internalMid in s.outBuffers then s.outBuffers[s.internalMid].outBuffer else s.queue[step.front].outBuffer
  }

  /** What is written is what the map holds under the new id afterwards: an occupied id gives
      the bytes of the message that occupies it once more. */
  lemma WrittenIsTheEntry(c: Config, s: State, step: Step)
    requires s.CountersFit(c) && Enabled(c, s, step) && step.StartWrite?
    ensures var entries := Apply(c, s, step).outBuffers;
            s.internalMid in entries && Written(c, s, step) == entries[s.internalMid].outBuffer
  {
  }

  ghost predicate ValidNetRun(cs: Configs, n: Net, steps: seq<NetStep>)
    requires NetFits(cs, n)
    decreases |steps|
  {
    steps == [] || (NetEnabled(cs, n, steps[0]) && ValidNetRun(cs, NetApply(cs, n, steps[0]), steps[1..]))
  }

  function NetRun(cs: Configs, n: Net, steps: seq<NetStep>): (r: Net)
    requires NetFits(cs, n) && ValidNetRun(cs, n, steps)
    ensures NetFits(cs, r)
    decreases |steps|
  {
    if steps == [] then n else NetRun(cs, NetApply(cs, n, steps[0]), steps[1..])
  }

  /** The steps of one side. */
  function StepsOf(steps: seq<NetStep>, side: Side): seq<Step> {
    if steps == [] then []
    else (if steps[0].side == side then [steps[0].step] else []) + StepsOf(steps[1..], side)
  }

  // ---- which ids a history mentions -------------------------------------------------

  function AcceptedIds(h: History): set<nat> {
    if h.Start? then {} else AcceptedIds(h.past) + if h.event.Accepted? then {h.event.m.id} else {}
  }

  function AcceptedMessages(h: History): set<PreparedMessage> {
    if h.Start? then {} else AcceptedMessages(h.past) + if h.event.Accepted? then {h.event.m} else {}
  }

  function ArrivedMessages(h: History): set<Message> {
    if h.Start? then {} else ArrivedMessages(h.past) + if h.event.ArrivedCallback? then {h.event.message} else {}
  }

  /** Ids of the messages that reached the user's arrived handler. */
  function ArrivedIds(h: History): set<nat> {
    if h.Start? then {} else ArrivedIds(h.past) + if h.event.ArrivedCallback? then {h.event.message.id} else {}
  }

  /** Ids of the requests that an accepted reply closed. */
  function AnsweredIds(h: History): set<nat> {
    if h.Start? then {} else AnsweredIds(h.past) + if h.event.ReplyClosed? then {h.event.mid} else {}
  }

  /** A reply id that the user sets by hand belongs to a message that arrived here. */
  predicate AnswersArrival(s: State, step: Step) {
    step.Send? && step.request.message.RidExists() ==> step.request.message.rid in ArrivedIds(s.log)
  }

  /** The users leave the ids of new messages to unicomm and answer what they received. */
  ghost predicate NetIsPlain(cs: Configs, n: Net, steps: seq<NetStep>)
    requires NetFits(cs, n) && ValidNetRun(cs, n, steps)
    decreases |steps|
  {
    steps != [] ==>
      && IsPlain(steps[0].step) && AnswersArrival(n.Of(steps[0].side), steps[0].step)
      && NetIsPlain(cs, NetApply(cs, n, steps[0]), steps[1..])
  }

  predicate Grows(h: History, h': History) {
    AcceptedIds(h) <= AcceptedIds(h') && ArrivedIds(h) <= ArrivedIds(h') && AcceptedMessages(h) <= AcceptedMessages(h')
  }

  lemma {:induction false} IdsOnlyGrow(before: History, step: Step, after: History)
    requires Extends(before, step, after)
    ensures Grows(before, after)
    ensures !step.Send? && !step.HandlerReturns? ==> AcceptedIds(after) == AcceptedIds(before)
    ensures !step.DecodeOne? ==> ArrivedIds(after) == ArrivedIds(before) && AnsweredIds(after) == AnsweredIds(before)
    ensures !step.DecodeOne? ==> ArrivedMessages(after) == ArrivedMessages(before)
  {
  }

  // ---- frames -----------------------------------------------------------------------

  function Prepared(m: Message, body: seq<byte>): PreparedMessage {
    PreparedMessage(m.id, m.name, Frame(body))
  }

  /** A side with history `h` accepted exactly this message. */
  predicate SentAs(p: Platform, h: History, m: Message) {
    Serialized(p, m).Some? && Prepared(m, Serialized(p, m).value) in AcceptedMessages(h)
  }

  /** A message sent by a side with history `h`; if it is a reply then it answers something
      received there. */
  predicate SoundMessage(p: Platform, h: History, m: Message) {
    SentAs(p, h, m) && m.id in AcceptedIds(h) && (m.RidExists() ==> m.rid in ArrivedIds(h))
  }

  /** A whole frame, which the receiver either rejects or reads as a sound message. */
  predicate SoundFrame(receiver: Config, h: History, frame: seq<byte>) {
    && FirstFrame(frame) == Some(frame)
    && var d := DecodeFrame(receiver.platform, receiver.catalog, frame);
       d.Ok? ==> SoundMessage(receiver.platform, h, d.value)
  }

  function SoundFor(receiver: Config, h: History): seq<byte> -> bool {
    (frame: seq<byte>) => SoundFrame(receiver, h, frame)
  }

  ghost predicate Implies(p: seq<byte> -> bool, q: seq<byte> -> bool) {
    forall frame :: p(frame) ==> q(frame)
  }

  lemma SoundForGrows(receiver: Config, h: History, h': History)
    requires Grows(h, h')
    ensures Implies(SoundFor(receiver, h), SoundFor(receiver, h'))
  {
  }

  lemma DecodeOwnFrame(p: Platform, catalog: Catalog, m: Message)
    requires m.IdsFit(p) && Serialized(p, m).Some?
    ensures var d := DecodeFrame(p, catalog, Frame(Serialized(p, m).value)); d.Throws? || d == Ok(m)
  {
    MessageRoundTrip(p, catalog, m);
  }

  lemma OwnFrameIsSound(receiver: Config, h: History, m: Message)
    requires m.IdsFit(receiver.platform) && SoundMessage(receiver.platform, h, m)
    ensures SoundFor(receiver, h)(Frame(Serialized(receiver.platform, m).value))
  {
    var frame := Frame(Serialized(receiver.platform, m).value);
    FirstFrameOfWire(Serialized(receiver.platform, m).value, []);
    assert frame + [] == frame;
    DecodeOwnFrame(receiver.platform, receiver.catalog, m);
  }

  // ---- what a sender holds ----------------------------------------------------------

  ghost predicate QueueHolds(p: seq<byte> -> bool, queue: seq<PreparedMessage>) {
    forall i | 0 <= i < |queue| :: p(queue[i].outBuffer)
  }

  ghost predicate BuffersHold(p: seq<byte> -> bool, buffers: map<nat, PreparedMessage>) {
    forall id | id in buffers :: p(buffers[id].outBuffer)
  }

  /** Every encoded message that has not been written out. */
  ghost predicate Holds(p: seq<byte> -> bool, s: State) {
    QueueHolds(p, s.queue) && BuffersHold(p, s.outBuffers)
  }

  lemma HoldsWeaker(p: seq<byte> -> bool, q: seq<byte> -> bool, s: State)
    requires Implies(p, q) && Holds(p, s)
    ensures Holds(q, s)
  {
  }

  lemma StartHoldsQueue(c: Config, s: State, front: nat, p: seq<byte> -> bool)
    requires s.CountersFit(c) && front < |s.queue| && QueueHolds(p, s.queue)
    ensures QueueHolds(p, StartOneWrite(c, s, front).queue)
  {
    var queue := StartOneWrite(c, s, front).queue;
    assert queue == s.queue[..front] + s.queue[front + 1..];
    forall i | 0 <= i < |queue|
      ensures p(queue[i].outBuffer)
    {
      assert queue[i] == s.queue[if i < front then i else i + 1];
    }
  }

  lemma StartHolds(c: Config, s: State, front: nat, p: seq<byte> -> bool)
    requires s.CountersFit(c) && front < |s.queue| && Holds(p, s)
    ensures Holds(p, StartOneWrite(c, s, front)) && p(Written(c, s, StartWrite(front)))
  {
    StartHoldsQueue(c, s, front, p);
    var r := StartOneWrite(c, s, front);
    assert r.outBuffers == s.outBuffers || r.outBuffers == s.outBuffers[s.internalMid := s.queue[front]];
  }

  lemma CompletionHolds(s: State, id: nat, ok: bool, p: seq<byte> -> bool)
    requires id in s.writing && Holds(p, s)
    ensures Holds(p, CompleteWrite(s, id, ok))
  {
  }

  /** Steps that accept nothing bring no new encoded message. */
  lemma QuietStepHolds(c: Config, s: State, step: Step, p: seq<byte> -> bool)
    requires s.CountersFit(c) && Enabled(c, s, step) && Holds(p, s) && !step.Send? && !step.HandlerReturns?
    ensures Holds(p, Apply(c, s, step))
  {
    if step.StartWrite? {
      StartHolds(c, s, step.front, p);
    } else if step.WriteCompleted? {
      CompletionHolds(s, step.intId, step.ok, p);
    }
  }

  lemma PrepareHolds(c: Config, s: State, m: Message, encodes: bool, p: seq<byte> -> bool)
    requires s.CountersFit(c) && Holds(p, s)
    requires var r := PrepareToWrite(c, s, m, encodes); r.queue != s.queue ==> p(r.queue[|r.queue| - 1].outBuffer)
    ensures Holds(p, PrepareToWrite(c, s, m, encodes))
  {
  }

  /** Ids are nonzero and fit their fields; a message in the handler has arrived. */
  ghost predicate SoundIds(c: Config, s: State) {
    && (forall k | k in AcceptedIds(s.log) :: 0 < k < c.IdModulus())
    && (s.delivery.Some? ==> 0 < s.delivery.value.outId < c.IdModulus() && s.delivery.value.message.id in ArrivedIds(s.log))
  }

  ghost predicate SoundSender(c: Config, receiver: Config, s: State) {
    Holds(SoundFor(receiver, s.log), s) && SoundIds(c, s)
  }

  /** What arrived here was accepted there, and what was answered here had arrived there. */
  ghost predicate SoundReceiver(p: Platform, h: History, other: History) {
    && ArrivedIds(h) <= AcceptedIds(other) && AnsweredIds(h) <= ArrivedIds(other)
    && forall m | m in ArrivedMessages(h) :: SentAs(p, other, m)
  }

  ghost predicate FramesHold(p: seq<byte> -> bool, stream: seq<byte>) {
    Rest(stream) == [] && forall i | 0 <= i < |Frames(stream)| :: p(Frames(stream)[i])
  }

  /** One side, given what the peer did and the bytes on their way to the peer. */
  ghost predicate SoundSide(c: Config, receiver: Config, s: State, peer: History, stream: seq<byte>) {
    && SoundSender(c, receiver, s)
    && SoundReceiver(c.platform, s.log, peer)
    && FramesHold(SoundFor(receiver, s.log), stream)
  }

  ghost predicate Sound(cs: Configs, n: Net) {
    SoundSide(cs.a, cs.b, n.a, n.b.log, n.Stream(A)) && SoundSide(cs.b, cs.a, n.b, n.a.log, n.Stream(B))
  }

  // ---- steps of a sender ------------------------------------------------------------

  predicate IdsBelow(ids: set<nat>, bound: nat) {
    forall k | k in ids :: k < bound
  }

  /** The message that prepare_to_write encodes. */
  function WithId(s: State, m: Message, r: State): Message {
    if m.IdExists() then m else m.(id := r.mesid)
  }

  lemma PreparedFrame(c: Config, s: State, m: Message, encodes: bool)
    requires c.useUniqueMessageId && s.CountersFit(c)
    ensures var r := PrepareToWrite(c, s, m, encodes);
            var sent := WithId(s, m, r);
            && (m.IdExists() || 0 < r.mesid < c.IdModulus())
            && if r.log == s.log then r.queue == s.queue
               else && Serialized(c.platform, sent).Some?
                    && var prepared := Prepared(sent, Serialized(c.platform, sent).value);
                       r.queue == s.queue + [prepared] && r.log == Then(s.log, Accepted(prepared))
  {
  }

  lemma PreparedMessageIsSound(c: Config, receiver: Config, s: State, m: Message, encodes: bool)
    requires c.platform == receiver.platform && c.useUniqueMessageId && s.CountersFit(c)
    requires SoundSender(c, receiver, s) && IdsBelow(ArrivedIds(s.log), c.IdModulus())
    requires m.id < c.IdModulus() && (m.RidExists() ==> m.rid in ArrivedIds(s.log))
    ensures SoundSender(c, receiver, PrepareToWrite(c, s, m, encodes))
  {
    hide PrepareToWrite, Holds, SoundFor, Serialized, Frame;
    var r := PrepareToWrite(c, s, m, encodes);
    PreparedFrame(c, s, m, encodes);
    if r.log != s.log {
      assert Grows(s.log, r.log);
      SoundForGrows(receiver, s.log, r.log);
      HoldsWeaker(SoundFor(receiver, s.log), SoundFor(receiver, r.log), s);
      OwnFrameIsSound(receiver, r.log, WithId(s, m, r));
    }
    PrepareHolds(c, s, m, encodes, SoundFor(receiver, r.log));
  }

  lemma ReceivedKeepsIds(c: Config, s: State, m: Message)
    requires c.useUniqueMessageId && s.CountersFit(c) && SoundIds(c, s)
    ensures SoundIds(c, ProcessReceived(c, s, m))
  {
    var r := ProcessReceived(c, s, m);
    assert r.log == Then(s.log, ArrivedCallback(m)) && r.delivery == Some(Delivery(m, r.mesid));
    assert ArrivedIds(r.log) == ArrivedIds(s.log) + {m.id} && AcceptedIds(r.log) == AcceptedIds(s.log);
  }

  /** An event that accepts nothing, in a step that brings nothing to the handler. */
  lemma EventKeepsIds(c: Config, s: State, r: State, e: Event)
    requires SoundIds(c, s) && !e.Accepted? && r.log == Then(s.log, e) && r.delivery == s.delivery
    ensures SoundIds(c, r)
  {
  }

  lemma IncomingKeepsIds(c: Config, s: State, m: Message)
    requires c.useUniqueMessageId && s.CountersFit(c) && SoundIds(c, s)
    ensures SoundIds(c, ProcessIncoming(c, s, m))
  {
    hide ProcessReceived, SoundIds;
    var r := ProcessIncoming(c, s, m);
    if !m.RidExists() {
      ReceivedKeepsIds(c, s, m);
    } else if m.rid in s.mesTimeouts {
      var request := s.mesTimeouts[m.rid];
      if c.IsAllowedReply(request, m.name) {
        EventKeepsIds(c, s, CloseByReply(s, m), ReplyClosed(m.rid, request, m.name));
        ReceivedKeepsIds(c, CloseByReply(s, m), m);
      } else {
        EventKeepsIds(c, s, r, ReplyDisallowed(m.rid, request, m.name));
      }
    } else {
      EventKeepsIds(c, s, r, ReplyUnregistered(m.rid));
    }
  }

  lemma ReactionKeepsIds(c: Config, s: State, taken: Option<Result<Message>>)
    requires c.useUniqueMessageId && s.CountersFit(c) && SoundIds(c, s)
    ensures SoundIds(c, ReactTo(c, s, taken))
  {
    match taken
    case None =>
    case Some(Ok(m)) => IncomingKeepsIds(c, s, m);
    case Some(Throws(e)) => EventKeepsIds(c, s, ReactTo(c, s, taken), FrameRejected(e));
  }

  lemma QuietStepKeepsIds(c: Config, s: State, step: Step)
    requires c.useUniqueMessageId && s.CountersFit(c) && Enabled(c, s, step) && !step.Send? && !step.HandlerReturns?
    requires SoundIds(c, s)
    ensures SoundIds(c, Apply(c, s, step))
  {
    if step.DecodeOne? {
      ReactionKeepsIds(c, Cut(s), Taken(c.platform, c.catalog, s.inBuffer));
    } else {
      StepEmits(c, s, step);
      IdsOnlyGrow(s.log, step, Apply(c, s, step).log);
    }
  }

  lemma QuietStepKeepsHolds(c: Config, receiver: Config, s: State, step: Step)
    requires s.CountersFit(c) && Enabled(c, s, step) && !step.Send? && !step.HandlerReturns?
    requires Holds(SoundFor(receiver, s.log), s)
    ensures Holds(SoundFor(receiver, Apply(c, s, step).log), Apply(c, s, step))
  {
    var r := Apply(c, s, step);
    StepEmits(c, s, step);
    IdsOnlyGrow(s.log, step, r.log);
    QuietStepHolds(c, s, step, SoundFor(receiver, s.log));
    SoundForGrows(receiver, s.log, r.log);
    HoldsWeaker(SoundFor(receiver, s.log), SoundFor(receiver, r.log), r);
  }

  lemma StepKeepsSoundSender(c: Config, receiver: Config, s: State, step: Step)
    requires c.platform == receiver.platform && c.useUniqueMessageId && s.CountersFit(c)
    requires Enabled(c, s, step) && IsPlain(step) && AnswersArrival(s, step)
    requires SoundSender(c, receiver, s) && IdsBelow(ArrivedIds(s.log), c.IdModulus())
    ensures SoundSender(c, receiver, Apply(c, s, step))
  {
    hide Apply, PrepareToWrite, SoundFor;
    if IsSending(step) {
      SendingIs(c, s, step);
      match step
      case Send(request) => PreparedMessageIsSound(c, receiver, s, request.message, request.encodes);
      case HandlerReturns(None) =>
      case HandlerReturns(Some(request)) =>
        PreparedMessageIsSound(c, receiver, s.(delivery := None), ReplyTo(c, s.delivery.value, request.message), request.encodes);
    } else {
      QuietStepKeepsHolds(c, receiver, s, step);
      QuietStepKeepsIds(c, s, step);
    }
  }

  // ---- steps of a receiver ----------------------------------------------------------

  /** What a step of a receiver may add to its history, when `m` came in. */
  predicate AddsAtMost(before: History, m: Message, after: History) {
    && ArrivedIds(after) <= ArrivedIds(before) + {m.id}
    && ArrivedMessages(after) <= ArrivedMessages(before) + {m}
    && AnsweredIds(after) <= AnsweredIds(before) + if m.RidExists() then {m.rid} else {}
  }

  lemma ReceivedIds(c: Config, s: State, m: Message)
    requires s.CountersFit(c)
    ensures AddsAtMost(s.log, m, ProcessReceived(c, s, m).log)
    ensures AnsweredIds(ProcessReceived(c, s, m).log) == AnsweredIds(s.log)
  {
  }

  lemma ClosedIds(s: State, m: Message)
    requires m.RidExists() && m.rid in s.mesTimeouts
    ensures var h := CloseByReply(s, m).log;
            && ArrivedIds(h) == ArrivedIds(s.log) && ArrivedMessages(h) == ArrivedMessages(s.log)
            && AnsweredIds(h) == AnsweredIds(s.log) + {m.rid}
  {
  }

  lemma NothingAdded(before: History, e: Event, m: Message)
    requires !e.ArrivedCallback? && !e.ReplyClosed?
    ensures AddsAtMost(before, m, Then(before, e))
  {
  }

  lemma IncomingIds(c: Config, s: State, m: Message)
    requires s.CountersFit(c)
    ensures AddsAtMost(s.log, m, ProcessIncoming(c, s, m).log)
  {
    hide ProcessReceived;
    if !m.RidExists() {
      ReceivedIds(c, s, m);
    } else if m.rid in s.mesTimeouts {
      var request := s.mesTimeouts[m.rid];
      if c.IsAllowedReply(request, m.name) {
        ClosedIds(s, m);
        ReceivedIds(c, CloseByReply(s, m), m);
      } else {
        NothingAdded(s.log, ReplyDisallowed(m.rid, request, m.name), m);
      }
    } else {
      NothingAdded(s.log, ReplyUnregistered(m.rid), m);
    }
  }

  /** The frame that a decode attempt takes, if it finds one. */
  function FirstOf(buffer: seq<byte>): seq<seq<byte>> {
    match FirstFrame(buffer)
    case None => []
    case Some(frame) => [frame]
  }

  /** Decoding takes the first frame of the stream and leaves the others. */
  lemma DecodeCutsStream(c: Config, s: State, wire: seq<byte>, p: seq<byte> -> bool)
    requires s.CountersFit(c) && FramesHold(p, s.inBuffer + wire)
    ensures FramesHold(p, DecodeFirst(c, s).inBuffer + wire)
    ensures FirstFrame(s.inBuffer).Some? ==> p(FirstFrame(s.inBuffer).value)
    ensures Frames(s.inBuffer + wire) == FirstOf(s.inBuffer) + Frames(DecodeFirst(c, s).inBuffer + wire)
  {
    var stream := s.inBuffer + wire;
    if FirstFrame(s.inBuffer).Some? {
      FirstFrameOfAppend(s.inBuffer, wire);
      FramesSplit(stream);
      var later := AfterFirstFrame(stream);
      assert Frames(stream)[0] == FirstFrame(s.inBuffer).value;
      assert forall i | 0 <= i < |Frames(later)| :: Frames(later)[i] == Frames(stream)[i + 1];
      assert DecodeFirst(c, s).inBuffer + wire == later;
    }
  }

  lemma SoundMessageKeepsReceiver(p: Platform, sender: History, m: Message, before: History, after: History)
    requires SoundMessage(p, sender, m) && AddsAtMost(before, m, after) && SoundReceiver(p, before, sender)
    ensures SoundReceiver(p, after, sender)
  {
  }

  lemma ReactionKeepsReceiver(c: Config, s: State, taken: Option<Result<Message>>, sender: History)
    requires s.CountersFit(c) && SoundReceiver(c.platform, s.log, sender)
    requires taken.Some? && taken.value.Ok? ==> SoundMessage(c.platform, sender, taken.value.value)
    ensures SoundReceiver(c.platform, ReactTo(c, s, taken).log, sender)
  {
    match taken
    case None =>
    case Some(Ok(m)) =>
      IncomingIds(c, s, m);
      SoundMessageKeepsReceiver(c.platform, sender, m, s.log, ReactTo(c, s, taken).log);
    case Some(Throws(e)) => assert ReactTo(c, s, taken).log == Then(s.log, FrameRejected(e));
  }

  lemma DecodeKeepsSoundReceiver(c: Config, sender: History, s: State, wire: seq<byte>)
    requires s.CountersFit(c) && FramesHold(SoundFor(c, sender), s.inBuffer + wire) && SoundReceiver(c.platform, s.log, sender)
    ensures SoundReceiver(c.platform, DecodeFirst(c, s).log, sender)
  {
    DecodeCutsStream(c, s, wire, SoundFor(c, sender));
    var taken := Taken(c.platform, c.catalog, s.inBuffer);
    if taken.Some? {
      assert SoundFrame(c, sender, FirstFrame(s.inBuffer).value);
      ReactionKeepsReceiver(c, Cut(s), taken, sender);
    }
  }

  lemma WrittenExtendsStream(stream: seq<byte>, frame: seq<byte>, p: seq<byte> -> bool)
    requires FramesHold(p, stream) && p(frame) && FirstFrame(frame) == Some(frame)
    ensures FramesHold(p, stream + frame) && Frames(stream + frame) == Frames(stream) + [frame]
  {
    FramesOfAppend(stream, frame);
    assert Rest(stream) + frame == frame;
    FramesSplit(frame);
    assert AfterFirstFrame(frame) == [];
    assert Frames(frame) == [frame];
  }

  // ---- steps of the pair ------------------------------------------------------------

  lemma ArrivedIdsFit(c: Config, receiver: Config, s: State, peer: State)
    requires c.platform == receiver.platform && SoundReceiver(c.platform, s.log, peer.log) && SoundIds(receiver, peer)
    ensures IdsBelow(ArrivedIds(s.log), c.IdModulus())
  {
  }

  /** The bytes on their way to the peer after a step. */
  function StreamAfter(c: Config, s: State, step: Step, stream: seq<byte>): seq<byte>
    requires s.CountersFit(c) && Enabled(c, s, step)
  {
    if step.StartWrite? then stream + Written(c, s, step) else stream
  }

  function WireAfter(step: Step, wire: seq<byte>): seq<byte>
    requires step.ReadCompleted? ==> step.chunk <= wire
  {
    if step.ReadCompleted? then wire[|step.chunk|..] else wire
  }

  lemma StreamStaysSound(c: Config, receiver: Config, s: State, step: Step, stream: seq<byte>)
    requires s.CountersFit(c) && Enabled(c, s, step) && Holds(SoundFor(receiver, s.log), s)
    requires FramesHold(SoundFor(receiver, s.log), stream)
    ensures FramesHold(SoundFor(receiver, Apply(c, s, step).log), StreamAfter(c, s, step, stream))
  {
    var s' := Apply(c, s, step);
    if step.StartWrite? {
      var frame := Written(c, s, step);
      StartHolds(c, s, step.front, SoundFor(receiver, s.log));
      WrittenExtendsStream(stream, frame, SoundFor(receiver, s.log));
    }
    StepEmits(c, s, step);
    IdsOnlyGrow(s.log, step, s'.log);
    SoundForGrows(receiver, s.log, s'.log);
  }

  lemma StepKeepsSoundReceiver(c: Config, s: State, step: Step, peer: History, wire: seq<byte>)
    requires s.CountersFit(c) && Enabled(c, s, step)
    requires SoundReceiver(c.platform, s.log, peer) && FramesHold(SoundFor(c, peer), s.inBuffer + wire)
    ensures SoundReceiver(c.platform, Apply(c, s, step).log, peer)
  {
    if step.DecodeOne? {
      DecodeKeepsSoundReceiver(c, peer, s, wire);
      assert Apply(c, s, step) == DecodeFirst(c, s);
    } else {
      StepEmits(c, s, step);
      IdsOnlyGrow(s.log, step, Apply(c, s, step).log);
    }
  }

  lemma StepKeepsIncoming(c: Config, s: State, step: Step, wire: seq<byte>, p: seq<byte> -> bool)
    requires s.CountersFit(c) && Enabled(c, s, step) && FramesHold(p, s.inBuffer + wire)
    requires step.ReadCompleted? ==> step.chunk <= wire
    ensures FramesHold(p, Apply(c, s, step).inBuffer + WireAfter(step, wire))
  {
    if step.DecodeOne? {
      DecodeCutsStream(c, s, wire, p);
      assert Apply(c, s, step) == DecodeFirst(c, s);
    } else if step.ReadCompleted? {
      var later := wire[|step.chunk|..];
      assert wire == step.chunk + later;
      Associative(s.inBuffer, step.chunk, later);
    }
  }

  /** A step of one side, seen from both: `stream` is on its way out and `wire` on its way in. */
  lemma StepKeepsSound(c: Config, cPeer: Config, s: State, peer: State, step: Step, stream: seq<byte>, wire: seq<byte>)
    requires c.platform == cPeer.platform && c.useUniqueMessageId && s.CountersFit(c)
    requires Enabled(c, s, step) && IsPlain(step) && AnswersArrival(s, step) && (step.ReadCompleted? ==> step.chunk <= wire)
    requires SoundSide(c, cPeer, s, peer.log, stream) && SoundSide(cPeer, c, peer, s.log, s.inBuffer + wire)
    ensures var s' := Apply(c, s, step);
            && SoundSide(c, cPeer, s', peer.log, StreamAfter(c, s, step, stream))
            && SoundSide(cPeer, c, peer, s'.log, s'.inBuffer + WireAfter(step, wire))
  {
    ArrivedIdsFit(c, cPeer, s, peer);
    StepKeepsSoundSender(c, cPeer, s, step);
    StreamStaysSound(c, cPeer, s, step, stream);
    StepKeepsSoundReceiver(c, s, step, peer.log, wire);
    StepKeepsIncoming(c, s, step, wire, SoundFor(c, peer.log));
    StepEmits(c, s, step);
    IdsOnlyGrow(s.log, step, Apply(c, s, step).log);
  }

  lemma StreamsAfter(cs: Configs, n: Net, ns: NetStep)
    requires NetFits(cs, n) && NetEnabled(cs, n, ns)
    ensures var c, s, n' := cs.Of(ns.side), n.Of(ns.side), NetApply(cs, n, ns);
            && n'.Of(ns.side) == Apply(c, s, ns.step) && n'.Of(ns.side.Other()) == n.Of(ns.side.Other())
            && n'.Stream(ns.side) == StreamAfter(c, s, ns.step, n.Stream(ns.side))
            && n'.Stream(ns.side.Other()) == Apply(c, s, ns.step).inBuffer + WireAfter(ns.step, n.From(ns.side.Other()))
  {
    hide Apply;
    if ns.step.StartWrite? {
      Associative(n.Of(ns.side.Other()).inBuffer, n.From(ns.side), Written(cs.Of(ns.side), n.Of(ns.side), ns.step));
    }
  }

  lemma NetStepKeepsSound(cs: Configs, n: Net, ns: NetStep)
    requires cs.Compatible() && NetFits(cs, n) && NetEnabled(cs, n, ns) && Sound(cs, n)
    requires IsPlain(ns.step) && AnswersArrival(n.Of(ns.side), ns.step)
    ensures Sound(cs, NetApply(cs, n, ns))
  {
    StreamsAfter(cs, n, ns);
    match ns.side
    case A => StepKeepsSound(cs.a, cs.b, n.a, n.b, ns.step, n.Stream(A), n.fromB);
    case B => StepKeepsSound(cs.b, cs.a, n.b, n.a, ns.step, n.Stream(B), n.fromA);
  }

  lemma {:induction false} NetRunsKeepSound(cs: Configs, n: Net, steps: seq<NetStep>)
    requires cs.Compatible() && NetFits(cs, n) && ValidNetRun(cs, n, steps) && NetIsPlain(cs, n, steps) && Sound(cs, n)
    ensures Sound(cs, NetRun(cs, n, steps))
    decreases |steps|
  {
    if steps != [] {
      NetStepKeepsSound(cs, n, steps[0]);
      NetRunsKeepSound(cs, NetApply(cs, n, steps[0]), steps[1..]);
    }
  }

  lemma SideAfter(cs: Configs, n: Net, ns: NetStep, side: Side)
    requires NetFits(cs, n) && NetEnabled(cs, n, ns)
    ensures NetApply(cs, n, ns).Of(side) == if ns.side == side then Apply(cs.Of(side), n.Of(side), ns.step) else n.Of(side)
  {
  }

  lemma RunCons(c: Config, s: State, step: Step, steps: seq<Step>)
    requires s.CountersFit(c) && Enabled(c, s, step) && ValidRun(c, Apply(c, s, step), steps)
    ensures ValidRun(c, s, [step] + steps) && Run(c, s, [step] + steps) == Run(c, Apply(c, s, step), steps)
  {
  }

  /** Each side of a run of the pair is a run of one communicator. */
  lemma {:induction false} SideOfNetRun(cs: Configs, n: Net, steps: seq<NetStep>, side: Side)
    requires NetFits(cs, n) && ValidNetRun(cs, n, steps)
    ensures ValidRun(cs.Of(side), n.Of(side), StepsOf(steps, side))
    ensures Run(cs.Of(side), n.Of(side), StepsOf(steps, side)) == NetRun(cs, n, steps).Of(side)
    decreases |steps|
  {
    hide Apply, Enabled, NetApply;
    if steps != [] {
      var later := StepsOf(steps[1..], side);
      SideOfNetRun(cs, NetApply(cs, n, steps[0]), steps[1..], side);
      SideAfter(cs, n, steps[0], side);
      if steps[0].side == side {
        RunCons(cs.Of(side), n.Of(side), steps[0].step, later);
      } else {
        assert StepsOf(steps, side) == later;
      }
    }
  }

  lemma {:induction false} SideIsPlain(cs: Configs, n: Net, steps: seq<NetStep>, side: Side)
    requires NetFits(cs, n) && ValidNetRun(cs, n, steps) && NetIsPlain(cs, n, steps)
    ensures ArePlain(StepsOf(steps, side))
    decreases |steps|
  {
    hide NetApply, NetEnabled;
    if steps != [] {
      SideIsPlain(cs, NetApply(cs, n, steps[0]), steps[1..], side);
    }
  }

  lemma {:induction false} AnsweredWithin(h: History, whole: History)
    requires h.Then? && h.event.ReplyClosed? && Within(h, whole)
    ensures h.event.mid in AnsweredIds(whole) && CountCloses(whole, h.event.mid) >= 1
  {
    if h != whole {
      AnsweredWithin(h, whole.past);
    }
  }

  lemma {:induction false} ArrivedWithin(h: History, whole: History)
    requires h.Then? && h.event.ArrivedCallback? && Within(h, whole)
    ensures h.event.message.id in ArrivedIds(whole) && h.event.message in ArrivedMessages(whole)
  {
    if h != whole {
      ArrivedWithin(h, whole.past);
    }
  }

  lemma InitialNetIsSound(cs: Configs)
    ensures Sound(cs, INITIAL_NET)
  {
  }

  /** What the peers of a run of the pair know of each other. */
  lemma NetRunsAreSound(cs: Configs, steps: seq<NetStep>, side: Side)
    requires cs.Compatible() && NetFits(cs, INITIAL_NET)
    requires ValidNetRun(cs, INITIAL_NET, steps) && NetIsPlain(cs, INITIAL_NET, steps)
    ensures var n := NetRun(cs, INITIAL_NET, steps);
            SoundReceiver(cs.Of(side).platform, n.Of(side).log, n.Of(side.Other()).log)
  {
    InitialNetIsSound(cs);
    NetRunsKeepSound(cs, INITIAL_NET, steps);
  }

  /** Every message that reaches a handler is, whole, one that the peer accepted. */
  lemma ArrivalsWereSent(cs: Configs, steps: seq<NetStep>, side: Side, h: History, m: Message)
    requires cs.Compatible() && NetFits(cs, INITIAL_NET)
    requires ValidNetRun(cs, INITIAL_NET, steps) && NetIsPlain(cs, INITIAL_NET, steps)
    requires Within(Then(h, ArrivedCallback(m)), NetRun(cs, INITIAL_NET, steps).Of(side).log)
    ensures SentAs(cs.Of(side).platform, NetRun(cs, INITIAL_NET, steps).Of(side.Other()).log, m)
  {
    NetRunsAreSound(cs, steps, side);
    ArrivedWithin(Then(h, ArrivedCallback(m)), NetRun(cs, INITIAL_NET, steps).Of(side).log);
  }

  /** A reply that reaches a handler closed a request that was open, under a name that
      allows it; unless the id counter came round, nothing else ever closes that request. */
  lemma RepliesCloseTheirRequests(c: Config, steps: seq<Step>, h: History, reply: Message)
    requires c.useUniqueMessageId && INITIAL_STATE.CountersFit(c) && ValidRun(c, INITIAL_STATE, steps) && ArePlain(steps)
    requires reply.RidExists() && Within(Then(h, ArrivedCallback(reply)), Run(c, INITIAL_STATE, steps).log)
    ensures var r := Run(c, INITIAL_STATE, steps);
            && h.Then? && reply.rid in Replay(h.past).open && reply.rid in AnsweredIds(r.log)
            && h.event == ReplyClosed(reply.rid, Replay(h.past).open[reply.rid], reply.name)
            && (r.midCalls < c.IdModulus() ==> CountCloses(r.log, reply.rid) == 1)
  {
    var r := Run(c, INITIAL_STATE, steps);
    RunsAreLegal(c, INITIAL_STATE, steps);
    RepliesArriveOnlyWhileOpen(c, h, reply, r.log);
    WithinPast(h, ArrivedCallback(reply), r.log);
    AnsweredWithin(h, r.log);
    if r.midCalls < c.IdModulus() {
      RequestsCloseAtMostOnce(c, steps, reply.rid);
    }
  }

  /** Every reply that reaches a handler was accepted by the peer and answers a message that
      this side sent, that the peer's handler received, and that was open here when the
      reply came; and no other reply or timeout ever closes that request. */
  lemma RepliesAnswerOpenRequests(cs: Configs, steps: seq<NetStep>, side: Side, h: History, reply: Message)
    requires cs.Compatible() && NetFits(cs, INITIAL_NET)
    requires ValidNetRun(cs, INITIAL_NET, steps) && NetIsPlain(cs, INITIAL_NET, steps)
    requires Within(Then(h, ArrivedCallback(reply)), NetRun(cs, INITIAL_NET, steps).Of(side).log) && reply.RidExists()
    ensures var c, n := cs.Of(side), NetRun(cs, INITIAL_NET, steps);
            var log, peerLog := n.Of(side).log, n.Of(side.Other()).log;
            && SentAs(c.platform, peerLog, reply) && reply.rid in AcceptedIds(log) && reply.rid in ArrivedIds(peerLog)
            && h.Then? && reply.rid in Replay(h.past).open
            && h.event == ReplyClosed(reply.rid, Replay(h.past).open[reply.rid], reply.name)
            && (n.Of(side).midCalls < c.IdModulus() ==> CountCloses(log, reply.rid) == 1)
  {
    SideOfNetRun(cs, INITIAL_NET, steps, side);
    SideIsPlain(cs, INITIAL_NET, steps, side);
    RepliesCloseTheirRequests(cs.Of(side), StepsOf(steps, side), h, reply);
    ArrivalsWereSent(cs, steps, side, h, reply);
    NetRunsAreSound(cs, steps, side);
    NetRunsAreSound(cs, steps, side.Other());
  }

  lemma {:induction false} WithinPast(h: History, e: Event, whole: History)
    requires Within(Then(h, e), whole)
    ensures Within(h, whole)
  {
    if Then(h, e) != whole {
      WithinPast(h, e, whole.past);
    }
  }
}
