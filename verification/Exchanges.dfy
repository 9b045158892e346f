/**
 A request and its answer, from the first send to the handler that gets the answer: what the
 rules allow to happen does happen when both sides are idle and the network delivers.
 */
module Exchanges {
  import opened BasicDetail
  import opened BinMessages
  import opened CommEffects
  import opened CommHistories
  import opened CommStates
  import opened MessageDecoder
  import opened MessageIds
  import opened Optional
  import opened Peers

  // ---- one message ------------------------------------------------------------------

  /** The receiver has a session, is in no handler and would hand `m` to one. */
  predicate Awaits(c: Config, s: State, m: Message) {
    && s.CountersFit(c) && s.sessionValid && s.delivery.None?
    && (m.rid == 0 || (m.rid in s.mesTimeouts && Allows(c, s.mesTimeouts[m.rid], m.name)))
  }

  function WireForm(p: Platform, m: Message): seq<byte>
    requires Serialized(p, m).Some?
  {
    Frame(Serialized(p, m).value)
  }

  /** A receiver that has read the wire form of `m`, whatever follows it, hands exactly `m` to
      its handler and closes the request that `m` answers. */
  lemma WireFormIsDelivered(c: Config, s: State, m: Message, after: seq<byte>)
    requires Awaits(c, s, m) && s.inBufferUpdated && Deliverable(c.platform, c.catalog, m)
    requires s.inBuffer == WireForm(c.platform, m) + after
    ensures Enabled(c, s, DecodeOne)
    ensures var r := Apply(c, s, DecodeOne);
            && r.delivery == Some(Delivery(m, if c.useUniqueMessageId then NextId(c, s) else 0))
            && r.mesTimeouts == (if m.rid != 0 then s.mesTimeouts - {m.rid} else s.mesTimeouts)
            && r.inBuffer == after && r.log.Then? && r.log.event == ArrivedCallback(m)
            && r == s.(mesid := r.mesid, midCalls := r.midCalls, mesTimeouts := r.mesTimeouts, inBuffer := after,
                       delivery := r.delivery, log := r.log)
  {
    hide Serialized, Frame, DecodeFrame;
    FirstFrameOfWire(Serialized(c.platform, m).value, after);
    MessageRoundTrip(c.platform, c.catalog, m);
    DeliveredIff(c, s, m);
  }

  /** The answer that a handler returns closes the request that it answers, on any peer that
      still has this request open under a name that allows the answer. */
  lemma AnswerClosesItsRequest(c: Config, s: State, out: SendRequest, peer: Config, waiting: State, after: seq<byte>)
    requires c.platform == peer.platform && s.CountersFit(c) && s.sessionValid && s.delivery.Some?
    requires s.delivery.value.message.id != 0 && (c.useUniqueMessageId ==> s.delivery.value.outId != 0)
    requires var answer := AnswerTo(c, s.delivery.value, out.message);
             && out.encodes && Deliverable(c.platform, peer.catalog, answer)
             && Awaits(peer, waiting, answer) && waiting.inBufferUpdated
    requires var sent := Apply(c, s, HandlerReturns(Some(out)));
             sent.queue != s.queue ==> waiting.inBuffer == sent.queue[|sent.queue| - 1].outBuffer + after
    ensures Apply(c, s, HandlerReturns(Some(out))).queue != s.queue
    ensures Enabled(peer, waiting, DecodeOne)
    ensures var d, r := s.delivery.value, Apply(peer, waiting, DecodeOne);
            && d.message.id in waiting.mesTimeouts && r.mesTimeouts == waiting.mesTimeouts - {d.message.id}
            && r.delivery.Some? && r.delivery.value.message == AnswerTo(c, d, out.message) && r.inBuffer == after
  {
    hide Apply, Serialized, Frame;
    var answer := AnswerTo(c, s.delivery.value, out.message);
    AnswerQueuesIff(c, s, out);
    DeliverableFits(c, peer.catalog, answer);
    WireFormIsDelivered(peer, waiting, answer, after);
  }

  lemma DeliverableFits(c: Config, catalog: Catalog, m: Message)
    requires Deliverable(c.platform, catalog, m)
    ensures FitsHeader(c, m)
  {
  }

  /** The sender has only `m` to write, under a free internal id. */
  predicate Writes(c: Config, s: State, m: Message) {
    && s.CountersFit(c) && s.delivery.None? && s.sentMessages == [] && s.internalMid !in s.outBuffers
    && Serialized(c.platform, m).Some? && s.queue == [PreparedMessage(m.id, m.name, WireForm(c.platform, m))]
  }

  /** A sender whose message was written: its request is open if it awaits a reply. */
  predicate Wrote(c: Config, s: State, r: State, m: Message) {
    && r.queue == [] && r.sentMessages == [] && r.outBuffers == s.outBuffers && r.delivery.None?
    && r.mesTimeouts == (if AwaitsReply(c, m.name) then s.mesTimeouts[m.id := m.name] else s.mesTimeouts)
    && r.sessionValid == s.sessionValid && r.inBuffer == s.inBuffer && r.mesid == s.mesid && r.CountersFit(c)
  }

  /** A receiver that has `m` in its handler; a request that it answers is closed. */
  predicate Took(c: Config, s: State, r: State, m: Message)
    requires s.CountersFit(c)
  {
    && r.delivery.Some? && r.delivery.value.message == m
    && (c.useUniqueMessageId ==> r.delivery.value.outId == NextId(c, s))
    && r.mesTimeouts == (if m.rid != 0 then s.mesTimeouts - {m.rid} else s.mesTimeouts)
    && r.inBuffer == [] && r.log.Then? && r.log.event == ArrivedCallback(m)
    && r.queue == s.queue && r.sentMessages == s.sentMessages && r.outBuffers == s.outBuffers
    && r.internalMid == s.internalMid && r.sessionValid && r.CountersFit(c)
  }

  lemma StartIs(c: Config, s: State, m: Message)
    requires Writes(c, s, m)
    ensures Enabled(c, s, StartWrite(0)) && Written(c, s, StartWrite(0)) == WireForm(c.platform, m)
    ensures var r, id := Apply(c, s, StartWrite(0)), s.internalMid;
            && r == s.(queue := [], internalMid := r.internalMid, outBuffers := s.outBuffers[id := s.queue[0]],
                       writing := s.writing + multiset{id}, log := r.log)
  {
    hide WireForm;
  }

  lemma CompletionIs(c: Config, s: State, id: nat)
    requires s.CountersFit(c) && id in s.writing && id in s.outBuffers
    ensures Enabled(c, s, WriteCompleted(id, true))
    ensures var r, m := Apply(c, s, WriteCompleted(id, true)), s.outBuffers[id];
            && r == s.(outBuffers := s.outBuffers - {id}, writing := r.writing, writeError := false,
                       sentMessages := s.sentMessages + [SentMessageInfo(id, m.id, m.name)], log := r.log)
  {
  }

  lemma WritingOut(c: Config, s: State, m: Message)
    requires Writes(c, s, m)
    ensures Enabled(c, s, StartWrite(0))
    ensures var s1 := Apply(c, s, StartWrite(0)); Enabled(c, s1, WriteCompleted(s.internalMid, true))
    ensures var s1 := Apply(c, s, StartWrite(0));
            var s2 := Apply(c, s1, WriteCompleted(s.internalMid, true));
            && Enabled(c, s2, ProcessOneSent) && Wrote(c, s, Apply(c, s2, ProcessOneSent), m)
  {
    hide Apply, WireForm, NotifyFirstSent;
    StartIs(c, s, m);
    var s1 := Apply(c, s, StartWrite(0));
    CompletionIs(c, s1, s.internalMid);
    var s2 := Apply(c, s1, WriteCompleted(s.internalMid, true));
    assert s2.outBuffers == s.outBuffers;
    NotifyOpensIff(c, s2);
    NotifyTouches(c, s2);
  }

  lemma NotifyTouches(c: Config, s: State)
    requires s.CountersFit(c) && Enabled(c, s, ProcessOneSent)
    ensures var r := Apply(c, s, ProcessOneSent);
            r == s.(mesTimeouts := r.mesTimeouts, sentMessages := r.sentMessages, log := r.log)
  {
    hide NotifyFirstSent;
  }

  // ---- one message across the wire --------------------------------------------------

  /** The write of one message, its completion, and the other side's reading of it. */
  function Passing(side: Side, intId: nat, bytes: seq<byte>): seq<NetStep> {
    [NetStep(side, StartWrite(0)), NetStep(side, WriteCompleted(intId, true)), NetStep(side, ProcessOneSent),
     NetStep(side.Other(), ReadCompleted(bytes)), NetStep(side.Other(), DecodeOne)]
  }

  lemma NetRunCons(cs: Configs, n: Net, steps: seq<NetStep>)
    requires NetFits(cs, n) && steps != [] && NetEnabled(cs, n, steps[0])
    requires ValidNetRun(cs, NetApply(cs, n, steps[0]), steps[1..])
    ensures ValidNetRun(cs, n, steps) && NetRun(cs, n, steps) == NetRun(cs, NetApply(cs, n, steps[0]), steps[1..])
  {
  }

  lemma {:induction false} NetRunAppend(cs: Configs, n: Net, a: seq<NetStep>, b: seq<NetStep>)
    requires NetFits(cs, n) && ValidNetRun(cs, n, a) && ValidNetRun(cs, NetRun(cs, n, a), b)
    ensures ValidNetRun(cs, n, a + b) && NetRun(cs, n, a + b) == NetRun(cs, NetRun(cs, n, a), b)
    decreases |a|
  {
    hide NetApply, NetEnabled;
    if a == [] {
      assert a + b == b;
    } else {
      assert (a + b)[0] == a[0] && (a + b)[1..] == a[1..] + b;
      NetRunAppend(cs, NetApply(cs, n, a[0]), a[1..], b);
    }
  }

  /** `m` has crossed: the sender is done with it, and the receiver has it in a handler. */
  predicate Passed(cs: Configs, n: Net, r: Net, side: Side, m: Message)
    requires NetFits(cs, n)
  {
    && Wrote(cs.Of(side), n.Of(side), r.Of(side), m) && r.From(side) == [] && r.From(side.Other()) == n.From(side.Other())
    && Took(cs.Of(side.Other()), n.Of(side.Other()), r.Of(side.Other()), m)
  }

  /** A step that does not touch the wire, and the start of a write. */
  lemma SideStep(cs: Configs, n: Net, side: Side, step: Step)
    requires NetFits(cs, n) && Enabled(cs.Of(side), n.Of(side), step) && !step.ReadCompleted?
    ensures NetEnabled(cs, n, NetStep(side, step))
    ensures var r := NetApply(cs, n, NetStep(side, step));
            && r.Of(side) == Apply(cs.Of(side), n.Of(side), step) && r.Of(side.Other()) == n.Of(side.Other())
            && r.From(side.Other()) == n.From(side.Other())
            && r.From(side) == n.From(side) + if step.StartWrite? then Written(cs.Of(side), n.Of(side), step) else []
  {
    hide Apply, Enabled, Written;
    assert n.From(side) + [] == n.From(side);
  }

  /** The sender's three steps. */
  lemma SenderPasses(cs: Configs, n: Net, side: Side, m: Message)
    requires NetFits(cs, n) && Writes(cs.Of(side), n.Of(side), m) && n.From(side) == []
    ensures var steps := Passing(side, n.Of(side).internalMid, WireForm(cs.Of(side).platform, m))[..3];
            && ValidNetRun(cs, n, steps)
            && var r := NetRun(cs, n, steps);
               && Wrote(cs.Of(side), n.Of(side), r.Of(side), m) && r.From(side) == WireForm(cs.Of(side).platform, m)
               && r.From(side.Other()) == n.From(side.Other()) && r.Of(side.Other()) == n.Of(side.Other())
  {
    hide Apply, Enabled, NetApply, NetEnabled, WireForm, Wrote, Written;
    var c, s, id := cs.Of(side), n.Of(side), n.Of(side).internalMid;
    var bytes := WireForm(c.platform, m);
    var steps := Passing(side, id, bytes)[..3];
    WritingOut(c, s, m);
    StartIs(c, s, m);
    SideStep(cs, n, side, StartWrite(0));
    var n1 := NetApply(cs, n, steps[0]);
    assert [] + bytes == bytes && bytes + [] == bytes;
    SideStep(cs, n1, side, WriteCompleted(id, true));
    var n2 := NetApply(cs, n1, steps[1]);
    SideStep(cs, n2, side, ProcessOneSent);
    var n3 := NetApply(cs, n2, steps[2]);
    assert steps[1..][1..][1..] == [];
    assert ValidNetRun(cs, n3, []);
    NetRunCons(cs, n2, steps[1..][1..]);
    NetRunCons(cs, n1, steps[1..]);
    NetRunCons(cs, n, steps);
  }

  /** The receiver's two. */
  lemma ReceiverPasses(cs: Configs, n: Net, side: Side, m: Message)
    requires NetFits(cs, n) && Deliverable(cs.Of(side.Other()).platform, cs.Of(side.Other()).catalog, m)
    requires Awaits(cs.Of(side.Other()), n.Of(side.Other()), m) && n.Of(side.Other()).inBuffer == []
    requires n.From(side) == WireForm(cs.Of(side.Other()).platform, m)
    ensures var steps := [NetStep(side.Other(), ReadCompleted(n.From(side))), NetStep(side.Other(), DecodeOne)];
            && ValidNetRun(cs, n, steps)
            && var r, s := NetRun(cs, n, steps), n.Of(side.Other());
               && r.Of(side) == n.Of(side) && r.From(side) == [] && r.From(side.Other()) == n.From(side.Other())
               && Took(cs.Of(side.Other()), s, r.Of(side.Other()), m)
  {
    hide Apply, Enabled, WireForm, Took, Awaits;
    var c, s := cs.Of(side.Other()), n.Of(side.Other());
    var steps := [NetStep(side.Other(), ReadCompleted(n.From(side))), NetStep(side.Other(), DecodeOne)];
    ReadingIn(c, s, m);
    var n1 := NetApply(cs, n, steps[0]);
    var n2 := NetApply(cs, n1, steps[1]);
    assert steps[1..][1..] == [];
    assert ValidNetRun(cs, n2, []);
    NetRunCons(cs, n1, steps[1..]);
    NetRunCons(cs, n, steps);
  }

  lemma ReadingIn(c: Config, s: State, m: Message)
    requires Deliverable(c.platform, c.catalog, m) && Awaits(c, s, m) && s.inBuffer == []
    ensures var bytes := WireForm(c.platform, m);
            && Enabled(c, s, ReadCompleted(bytes))
            && var s1 := Apply(c, s, ReadCompleted(bytes));
               Enabled(c, s1, DecodeOne) && Took(c, s, Apply(c, s1, DecodeOne), m)
  {
    hide Apply, Enabled, WireForm;
    ReadIs(c, s, WireForm(c.platform, m));
    var s1 := Apply(c, s, ReadCompleted(WireForm(c.platform, m)));
    assert s1.inBuffer == WireForm(c.platform, m) + [];
    WireFormIsDelivered(c, s1, m, []);
  }

  lemma ReadIs(c: Config, s: State, chunk: seq<byte>)
    requires s.CountersFit(c)
    ensures Enabled(c, s, ReadCompleted(chunk))
    ensures Apply(c, s, ReadCompleted(chunk)) == s.(inBuffer := s.inBuffer + chunk, inBufferUpdated := true, readError := false)
  {
  }

  lemma MessagePasses(cs: Configs, n: Net, side: Side, m: Message)
    requires NetFits(cs, n) && cs.Of(side).platform == cs.Of(side.Other()).platform
    requires Writes(cs.Of(side), n.Of(side), m) && n.From(side) == []
    requires Deliverable(cs.Of(side.Other()).platform, cs.Of(side.Other()).catalog, m)
    requires Awaits(cs.Of(side.Other()), n.Of(side.Other()), m) && n.Of(side.Other()).inBuffer == []
    ensures var steps := Passing(side, n.Of(side).internalMid, WireForm(cs.Of(side).platform, m));
            ValidNetRun(cs, n, steps) && Passed(cs, n, NetRun(cs, n, steps), side, m)
  {
    hide NetRun, ValidNetRun, WireForm, Wrote, Awaits, Deliverable;
    var steps := Passing(side, n.Of(side).internalMid, WireForm(cs.Of(side).platform, m));
    SenderPasses(cs, n, side, m);
    var between := NetRun(cs, n, steps[..3]);
    ReceiverPasses(cs, between, side, m);
    assert steps[3..] == [NetStep(side.Other(), ReadCompleted(between.From(side))), NetStep(side.Other(), DecodeOne)];
    assert steps == steps[..3] + steps[3..];
    NetRunAppend(cs, n, steps[..3], steps[3..]);
  }

  // ---- a request and its answer -----------------------------------------------------

  /** Nothing to write and nothing written that is not told, and the next internal id free. */
  predicate IsIdle(c: Config, s: State) {
    && s.CountersFit(c) && s.sessionValid && s.delivery.None? && s.queue == [] && s.sentMessages == []
    && s.inBuffer == [] && s.internalMid !in s.outBuffers
  }

  /** The request as it is sent, and the answer that the peer's handler returns to it. */
  function RequestSent(c: Config, s: State, m: Message): Message {
    m.(id := if m.id != 0 then m.id else NextId(c, s))
  }

  function AnswerSent(c: Config, s: State, request: Message, out: Message): Message {
    Message(out.name, if out.id != 0 then out.id else NextId(c, s), request.id, out.tail)
  }

  /** Send, write and read; answer, write and read. */
  function Exchange(cs: Configs, n: Net, side: Side, request: SendRequest, answer: SendRequest): (steps: seq<NetStep>)
    requires Serialized(cs.Of(side).platform, RequestSent(cs.Of(side), n.Of(side), request.message)).Some?
    requires var m := RequestSent(cs.Of(side), n.Of(side), request.message);
             Serialized(cs.Of(side).platform, AnswerSent(cs.Of(side.Other()), n.Of(side.Other()), m, answer.message)).Some?
  {
    var other := side.Other();
    var m := RequestSent(cs.Of(side), n.Of(side), request.message);
    var reply := AnswerSent(cs.Of(other), n.Of(other), m, answer.message);
    ([NetStep(side, Send(request))] + Passing(side, n.Of(side).internalMid, WireForm(cs.Of(side).platform, m)))
    + ([NetStep(other, HandlerReturns(Some(answer)))]
       + Passing(other, n.Of(other).internalMid, WireForm(cs.Of(side).platform, reply)))
  }

  /** A step of one side after which it has only `m` to write, and then its passing. */
  lemma StepThenPass(cs: Configs, n: Net, side: Side, step: Step, m: Message)
    requires NetFits(cs, n) && cs.Of(side).platform == cs.Of(side.Other()).platform
    requires Enabled(cs.Of(side), n.Of(side), step) && !step.ReadCompleted? && !step.StartWrite?
    requires var r := Apply(cs.Of(side), n.Of(side), step);
             Writes(cs.Of(side), r, m) && r.internalMid == n.Of(side).internalMid
    requires n.From(side) == []
    requires Deliverable(cs.Of(side.Other()).platform, cs.Of(side.Other()).catalog, m)
    requires Awaits(cs.Of(side.Other()), n.Of(side.Other()), m) && n.Of(side.Other()).inBuffer == []
    ensures var steps := [NetStep(side, step)] + Passing(side, n.Of(side).internalMid, WireForm(cs.Of(side).platform, m));
            && ValidNetRun(cs, n, steps)
            && Passed(cs, n.WithState(side, Apply(cs.Of(side), n.Of(side), step)), NetRun(cs, n, steps), side, m)
  {
    hide Apply, Enabled, WireForm, Awaits, Deliverable, Wrote;
    var next := n.WithState(side, Apply(cs.Of(side), n.Of(side), step));
    var later := Passing(side, n.Of(side).internalMid, WireForm(cs.Of(side).platform, m));
    assert NetApply(cs, n, NetStep(side, step)) == next;
    MessagePasses(cs, next, side, m);
    assert ([NetStep(side, step)] + later)[1..] == later;
    NetRunCons(cs, n, [NetStep(side, step)] + later);
  }

  lemma RequestIsReady(c: Config, s: State, request: SendRequest)
    requires IsIdle(c, s) && c.useUniqueMessageId && request.encodes
    requires Serialized(c.platform, RequestSent(c, s, request.message)).Some?
    ensures var r := Apply(c, s, Send(request));
            Writes(c, r, RequestSent(c, s, request.message)) && r.internalMid == s.internalMid
            && r == s.(mesid := r.mesid, midCalls := r.midCalls, queue := r.queue, log := r.log)
  {
    hide PrepareToWrite, Serialized, Frame;
    SerializedFits(c, RequestSent(c, s, request.message));
    SendQueuesIff(c, s, request);
    SendingIs(c, s, Send(request));
  }

  lemma AnswerIsReady(c: Config, s: State, request: Message, answer: SendRequest)
    requires c.useUniqueMessageId && answer.encodes && s.CountersFit(c) && s.sessionValid
    requires s.delivery.Some? && s.delivery.value.message == request && s.delivery.value.outId != 0
    requires s.queue == [] && s.sentMessages == [] && s.internalMid !in s.outBuffers
    requires Serialized(c.platform, AnswerTo(c, s.delivery.value, answer.message)).Some?
    ensures var r := Apply(c, s, HandlerReturns(Some(answer)));
            Writes(c, r, AnswerTo(c, s.delivery.value, answer.message)) && r.internalMid == s.internalMid
            && r == s.(mesid := r.mesid, midCalls := r.midCalls, queue := r.queue, delivery := None, log := r.log)
  {
    hide PrepareToWrite, Serialized, Frame, ReplyTo;
    SerializedFits(c, AnswerTo(c, s.delivery.value, answer.message));
    AnswerQueuesIff(c, s, answer);
    SendingIs(c, s, HandlerReturns(Some(answer)));
  }

  lemma SerializedFits(c: Config, m: Message)
    requires Serialized(c.platform, m).Some?
    ensures FitsHeader(c, m)
  {
  }

  /** The request has arrived: it is open on one side and in a handler of the other, which
      has nothing else to write. */
  predicate Asked(cs: Configs, n: Net, r: Net, side: Side, m: Message)
    requires NetFits(cs, n) && NetFits(cs, r)
  {
    var s, peer := r.Of(side), r.Of(side.Other());
    && s.sessionValid && s.delivery.None? && s.inBuffer == [] && r.From(side) == [] && r.From(side.Other()) == []
    && m.id in s.mesTimeouts && s.mesTimeouts[m.id] == m.name
    && peer.delivery.Some? && peer.delivery.value.message == m
    && peer.delivery.value.outId == NextId(cs.Of(side.Other()), n.Of(side.Other()))
    && peer.sessionValid && peer.queue == [] && peer.sentMessages == [] && peer.internalMid !in peer.outBuffers
    && peer.internalMid == n.Of(side.Other()).internalMid && peer.inBuffer == []
  }

  lemma RequestPasses(cs: Configs, n: Net, side: Side, request: SendRequest, m: Message)
    requires cs.Compatible() && IsIdle(cs.a, n.a) && IsIdle(cs.b, n.b) && n.fromA == n.fromB == []
    requires request.encodes && request.message.rid == 0 && AwaitsReply(cs.Of(side), request.message.name)
    requires m == RequestSent(cs.Of(side), n.Of(side), request.message)
    requires Deliverable(cs.a.platform, cs.Of(side.Other()).catalog, m) && Serialized(cs.a.platform, m).Some?
    ensures var steps := [NetStep(side, Send(request))]
                         + Passing(side, n.Of(side).internalMid, WireForm(cs.Of(side).platform, m));
            ValidNetRun(cs, n, steps) && Asked(cs, n, NetRun(cs, n, steps), side, m)
  {
    hide Apply, NetApply, NetEnabled, NetRun, ValidNetRun, Deliverable, Writes, WireForm, Passing;
    RequestIsReady(cs.Of(side), n.Of(side), request);
    StepThenPass(cs, n, side, Send(request), m);
  }

  lemma AnswerPasses(cs: Configs, n: Net, asked: Net, side: Side, m: Message, answer: SendRequest, reply: Message)
    requires cs.Compatible() && NetFits(cs, n) && NetFits(cs, asked) && Asked(cs, n, asked, side, m)
    requires answer.encodes && m.id != 0 && Allows(cs.Of(side), m.name, reply.name)
    requires reply == AnswerSent(cs.Of(side.Other()), n.Of(side.Other()), m, answer.message)
    requires Deliverable(cs.a.platform, cs.Of(side).catalog, reply) && Serialized(cs.a.platform, reply).Some?
    ensures var steps := [NetStep(side.Other(), HandlerReturns(Some(answer)))]
                         + Passing(side.Other(), n.Of(side.Other()).internalMid, WireForm(cs.Of(side).platform, reply));
            ValidNetRun(cs, asked, steps) && Took(cs.Of(side), asked.Of(side), NetRun(cs, asked, steps).Of(side), reply)
  {
    hide Apply, NetApply, NetEnabled, NetRun, ValidNetRun, Deliverable, Writes, WireForm, Passing, Wrote, Took;
    var peer := side.Other();
    assert AnswerTo(cs.Of(peer), asked.Of(peer).delivery.value, answer.message) == reply;
    AnswerIsReady(cs.Of(peer), asked.Of(peer), m, answer);
    StepThenPass(cs, asked, peer, HandlerReturns(Some(answer)), reply);
  }

  /** Between two idle peers a request that awaits a reply, and that allows the answer which
      the peer's handler gives, is answered: the peer's handler gets exactly the request, the
      requester's handler exactly the answer, and the request is open no more. */
  lemma RequestIsAnswered(cs: Configs, n: Net, side: Side, request: SendRequest, answer: SendRequest)
    requires cs.Compatible() && IsIdle(cs.a, n.a) && IsIdle(cs.b, n.b) && n.fromA == n.fromB == []
    requires request.encodes && answer.encodes && request.message.rid == 0
    requires AwaitsReply(cs.Of(side), request.message.name)
    requires Allows(cs.Of(side), request.message.name, answer.message.name)
    requires Deliverable(cs.a.platform, cs.Of(side.Other()).catalog, RequestSent(cs.Of(side), n.Of(side), request.message))
    requires var m := RequestSent(cs.Of(side), n.Of(side), request.message);
             Deliverable(cs.a.platform, cs.Of(side).catalog,
                         AnswerSent(cs.Of(side.Other()), n.Of(side.Other()), m, answer.message))
    ensures var m := RequestSent(cs.Of(side), n.Of(side), request.message);
            var steps, other := Exchange(cs, n, side, request, answer), side.Other();
            && ValidNetRun(cs, n, steps) && ValidNetRun(cs, n, steps[..6])
            && var asked, r := NetRun(cs, n, steps[..6]), NetRun(cs, n, steps);
               && asked.Of(other).delivery.Some? && asked.Of(other).delivery.value.message == m
               && m.id in asked.Of(side).mesTimeouts && m.id !in r.Of(side).mesTimeouts
               && r.Of(side).delivery.Some?
               && r.Of(side).delivery.value.message == AnswerSent(cs.Of(other), n.Of(other), m, answer.message)
  {
    hide NetRun, ValidNetRun, Deliverable, WireForm, Passing, AwaitsReply, Allows;
    var other := side.Other();
    var m := RequestSent(cs.Of(side), n.Of(side), request.message);
    var reply := AnswerSent(cs.Of(other), n.Of(other), m, answer.message);
    DeliverableIsSerialized(cs.a.platform, cs.Of(other).catalog, m);
    DeliverableIsSerialized(cs.a.platform, cs.Of(side).catalog, reply);
    RequestPasses(cs, n, side, request, m);
    var first := [NetStep(side, Send(request))] + Passing(side, n.Of(side).internalMid, WireForm(cs.Of(side).platform, m));
    var asked := NetRun(cs, n, first);
    AnswerPasses(cs, n, asked, side, m, answer, reply);
    var second := [NetStep(other, HandlerReturns(Some(answer)))]
                  + Passing(other, n.Of(other).internalMid, WireForm(cs.Of(side).platform, reply));
    PassingHasFive(side, n.Of(side).internalMid, WireForm(cs.Of(side).platform, m));
    assert (first + second)[..6] == first;
    NetRunAppend(cs, n, first, second);
  }

  lemma PassingHasFive(side: Side, intId: nat, bytes: seq<byte>)
    ensures |Passing(side, intId, bytes)| == 5
  {
  }

  lemma DeliverableIsSerialized(p: Platform, catalog: Catalog, m: Message)
    requires Deliverable(p, catalog, m)
    ensures Serialized(p, m).Some?
  {
  }
}
