/**
 The two byte streams between the peers as queues of frames: what one side writes is what the
 other side takes, in the same order, each frame once, with what is on its way in between.
 */
module PeerStreams {
  import opened BasicDetail
  import opened BinMessages
  import opened CommHistories
  import opened CommOutboxes
  import opened CommStates
  import opened MessageDecoder
  import opened Optional
  import opened Peers
  import opened Sequences

  /** The frames that a step of `side` puts on the wire. */
  function WrittenIn(cs: Configs, n: Net, ns: NetStep, side: Side): seq<seq<byte>>
    requires NetFits(cs, n) && NetEnabled(cs, n, ns)
  {
    if ns.side == side && ns.step.StartWrite? then [Written(cs.Of(side), n.Of(side), ns.step)] else []
  }

  /** The frames that a step of `side` takes from its buffer, accepted or rejected. */
  function TakenIn(n: Net, ns: NetStep, side: Side): seq<seq<byte>> {
    if ns.side == side && ns.step.DecodeOne? then FirstOf(n.Of(side).inBuffer) else []
  }

  function WrittenBy(cs: Configs, n: Net, steps: seq<NetStep>, side: Side): seq<seq<byte>>
    requires NetFits(cs, n) && ValidNetRun(cs, n, steps)
    decreases |steps|
  {
    if steps == [] then []
    else WrittenIn(cs, n, steps[0], side) + WrittenBy(cs, NetApply(cs, n, steps[0]), steps[1..], side)
  }

  function TakenBy(cs: Configs, n: Net, steps: seq<NetStep>, side: Side): seq<seq<byte>>
    requires NetFits(cs, n) && ValidNetRun(cs, n, steps)
    decreases |steps|
  {
    if steps == [] then []
    else TakenIn(n, steps[0], side) + TakenBy(cs, NetApply(cs, n, steps[0]), steps[1..], side)
  }

  // ---- every stream is made of whole frames -----------------------------------------

  predicate IsWhole(frame: seq<byte>) {
    FirstFrame(frame) == Some(frame)
  }

  function WholeFrames(): seq<byte> -> bool {
    (frame: seq<byte>) => IsWhole(frame)
  }

  lemma WireFormIsWhole(buffer: seq<byte>)
    requires IsWireForm(buffer)
    ensures IsWhole(buffer)
  {
    var body: seq<byte> :| buffer == Frame(body);
    FirstFrameOfWire(body, []);
    assert Frame(body) + [] == Frame(body);
  }

  lemma PreparedIsWireForm(c: Config, s: State, m: Message, encodes: bool)
    requires s.CountersFit(c)
    ensures var queue := PrepareToWrite(c, s, m, encodes).queue;
            queue == s.queue || (|queue| == |s.queue| + 1 && IsWireForm(queue[|s.queue|].outBuffer))
  {
    hide Push, Encoded, TakeMid, IsWireForm;
  }

  lemma PreparedIsWhole(c: Config, s: State, m: Message, encodes: bool)
    requires s.CountersFit(c) && Holds(WholeFrames(), s)
    ensures Holds(WholeFrames(), PrepareToWrite(c, s, m, encodes))
  {
    hide PrepareToWrite, IsWhole, IsWireForm, Holds;
    var queue := PrepareToWrite(c, s, m, encodes).queue;
    PreparedIsWireForm(c, s, m, encodes);
    if queue != s.queue {
      WireFormIsWhole(queue[|s.queue|].outBuffer);
    }
    PrepareHolds(c, s, m, encodes, WholeFrames());
  }

  lemma StepKeepsWhole(c: Config, s: State, step: Step)
    requires s.CountersFit(c) && Enabled(c, s, step) && Holds(WholeFrames(), s)
    ensures Holds(WholeFrames(), Apply(c, s, step))
  {
    hide Apply, PrepareToWrite, WholeFrames;
    if IsSending(step) {
      SendingIs(c, s, step);
      match step
      case Send(request) => PreparedIsWhole(c, s, request.message, request.encodes);
      case HandlerReturns(None) =>
      case HandlerReturns(Some(request)) =>
        PreparedIsWhole(c, s.(delivery := None), ReplyTo(c, s.delivery.value, request.message), request.encodes);
    } else {
      QuietStepHolds(c, s, step, WholeFrames());
    }
  }

  ghost predicate WholeNet(n: Net) {
    && Holds(WholeFrames(), n.a) && Holds(WholeFrames(), n.b)
    && FramesHold(WholeFrames(), n.Stream(A)) && FramesHold(WholeFrames(), n.Stream(B))
  }

  /** One stream in one step of the side that writes to it. */
  lemma WriterStep(c: Config, s: State, step: Step, stream: seq<byte>)
    requires s.CountersFit(c) && Enabled(c, s, step) && Holds(WholeFrames(), s) && FramesHold(WholeFrames(), stream)
    ensures var after := StreamAfter(c, s, step, stream);
            && FramesHold(WholeFrames(), after)
            && Frames(after) == Frames(stream) + if step.StartWrite? then [Written(c, s, step)] else []
  {
    if step.StartWrite? {
      StartHolds(c, s, step.front, WholeFrames());
      WrittenExtendsStream(stream, Written(c, s, step), WholeFrames());
    } else {
      assert Frames(stream) + [] == Frames(stream);
    }
  }

  /** One stream in one step of the side that reads from it. */
  lemma ReaderStep(c: Config, s: State, step: Step, wire: seq<byte>)
    requires s.CountersFit(c) && Enabled(c, s, step) && FramesHold(WholeFrames(), s.inBuffer + wire)
    requires step.ReadCompleted? ==> step.chunk <= wire
    ensures var after := Apply(c, s, step).inBuffer + WireAfter(step, wire);
            && FramesHold(WholeFrames(), after)
            && Frames(s.inBuffer + wire) == (if step.DecodeOne? then FirstOf(s.inBuffer) else []) + Frames(after)
  {
    hide FirstOf, FramesHold;
    if step.DecodeOne? {
      DecodeCutsStream(c, s, wire, WholeFrames());
      assert Apply(c, s, step) == DecodeFirst(c, s);
    } else {
      if step.ReadCompleted? {
        var later := wire[|step.chunk|..];
        assert wire == step.chunk + later;
        Associative(s.inBuffer, step.chunk, later);
      }
      assert [] + Frames(s.inBuffer + wire) == Frames(s.inBuffer + wire);
    }
  }

  /** What a step does to the stream that `side` writes. */
  lemma StreamStep(cs: Configs, n: Net, ns: NetStep, side: Side)
    requires NetFits(cs, n) && NetEnabled(cs, n, ns) && WholeNet(n)
    ensures var n' := NetApply(cs, n, ns);
            && FramesHold(WholeFrames(), n'.Stream(side))
            && Frames(n.Stream(side)) + WrittenIn(cs, n, ns, side) == TakenIn(n, ns, side.Other()) + Frames(n'.Stream(side))
  {
    hide FramesHold, Holds, FirstOf, NetApply, Frames, Apply, Enabled, Written;
    StreamsAfter(cs, n, ns);
    NetStepIsStep(cs, n, ns);
    var c, s := cs.Of(ns.side), n.Of(ns.side);
    if ns.side == side {
      WriterStep(c, s, ns.step, n.Stream(side));
      assert [] + Frames(NetApply(cs, n, ns).Stream(side)) == Frames(NetApply(cs, n, ns).Stream(side));
    } else {
      ReaderStep(c, s, ns.step, n.From(side));
      assert Frames(n.Stream(side)) + [] == Frames(n.Stream(side));
    }
  }

  lemma StepKeepsWholeNet(cs: Configs, n: Net, ns: NetStep)
    requires NetFits(cs, n) && NetEnabled(cs, n, ns) && WholeNet(n)
    ensures WholeNet(NetApply(cs, n, ns))
  {
    hide FramesHold, Holds;
    StreamsAfter(cs, n, ns);
    StreamStep(cs, n, ns, A);
    StreamStep(cs, n, ns, B);
    StepKeepsWhole(cs.Of(ns.side), n.Of(ns.side), ns.step);
  }

  lemma {:induction false} StreamsAreQueues(cs: Configs, n: Net, steps: seq<NetStep>, side: Side)
    requires NetFits(cs, n) && ValidNetRun(cs, n, steps) && WholeNet(n)
    ensures var r := NetRun(cs, n, steps);
            && WholeNet(r)
            && Frames(n.Stream(side)) + WrittenBy(cs, n, steps, side)
               == TakenBy(cs, n, steps, side.Other()) + Frames(r.Stream(side))
    decreases |steps|
  {
    hide WholeNet, NetApply, NetEnabled, WrittenIn, TakenIn, Frames;
    if steps == [] {
      assert Frames(n.Stream(side)) + [] == [] + Frames(n.Stream(side));
    } else {
      var next := NetApply(cs, n, steps[0]);
      StreamStep(cs, n, steps[0], side);
      StepKeepsWholeNet(cs, n, steps[0]);
      StreamsAreQueues(cs, next, steps[1..], side);
      var w, t := WrittenIn(cs, n, steps[0], side), TakenIn(n, steps[0], side.Other());
      var later := WrittenBy(cs, next, steps[1..], side);
      Associative(Frames(n.Stream(side)), w, later);
      Associative(t, Frames(next.Stream(side)), later);
      Associative(t, TakenBy(cs, next, steps[1..], side.Other()), Frames(NetRun(cs, next, steps[1..]).Stream(side)));
    }
  }

  lemma WholeNetHasNoRest(n: Net, side: Side)
    requires WholeNet(n)
    ensures Rest(n.Stream(side)) == []
  {
  }

  lemma InitialNetIsWhole()
    ensures WholeNet(INITIAL_NET) && Frames(INITIAL_NET.Stream(A)) == Frames(INITIAL_NET.Stream(B)) == []
  {
    assert INITIAL_NET.Stream(A) == [] && INITIAL_NET.Stream(B) == [];
  }

  // ---- and what is written is what was started --------------------------------------

  /** The buffers of the messages whose writes were started, in order. */
  function StartedFrames(h: History): seq<seq<byte>> {
    match h
    case Start => []
    case Then(past, Started(_, m)) => StartedFrames(past) + [m.outBuffer]
    case Then(past, _) => StartedFrames(past)
  }

  lemma NothingStarted()
    ensures StartedFrames(Start) == []
  {
  }

  lemma {:induction false} ExtensionStartsNothing(before: History, step: Step, after: History)
    requires Extends(before, step, after) && !step.StartWrite?
    ensures StartedFrames(after) == StartedFrames(before)
  {
    if after != before {
      assert !after.event.Started?;
    }
  }

  lemma StepStarts(c: Config, s: State, step: Step)
    requires s.CountersFit(c) && Enabled(c, s, step) && (step.StartWrite? ==> s.internalMid !in s.outBuffers)
    ensures StartedFrames(Apply(c, s, step).log) ==
            StartedFrames(s.log) + if step.StartWrite? then [Written(c, s, step)] else []
  {
    if step.StartWrite? {
      assert Apply(c, s, step).log == Then(s.log, Started(s.internalMid, s.queue[step.front]));
    } else {
      StepEmits(c, s, step);
      ExtensionStartsNothing(s.log, step, Apply(c, s, step).log);
      assert StartedFrames(s.log) + [] == StartedFrames(s.log);
    }
  }

  lemma {:induction false} WrittenAreStarted(cs: Configs, n: Net, steps: seq<NetStep>, side: Side)
    requires NetFits(cs, n) && ValidNetRun(cs, n, steps)
    requires ValidRun(cs.Of(side), n.Of(side), StepsOf(steps, side)) && FreeIds(cs.Of(side), n.Of(side), StepsOf(steps, side))
    ensures StartedFrames(NetRun(cs, n, steps).Of(side).log) ==
            StartedFrames(n.Of(side).log) + WrittenBy(cs, n, steps, side)
    decreases |steps|
  {
    hide NetApply, NetEnabled, Apply, Enabled, Written, StartedFrames;
    if steps == [] {
      assert StartedFrames(n.Of(side).log) + [] == StartedFrames(n.Of(side).log);
    } else {
      var next := NetApply(cs, n, steps[0]);
      SideAfter(cs, n, steps[0], side);
      StepsOfCons(steps, side);
      WrittenAreStarted(cs, next, steps[1..], side);
      if steps[0].side == side {
        NetStepIsStep(cs, n, steps[0]);
        StepStarts(cs.Of(side), n.Of(side), steps[0].step);
      } else {
        assert WrittenBy(cs, n, steps, side) == [] + WrittenBy(cs, next, steps[1..], side);
      }
      Associative(StartedFrames(n.Of(side).log), WrittenIn(cs, n, steps[0], side), WrittenBy(cs, next, steps[1..], side));
      assert StartedFrames(n.Of(side).log) + [] == StartedFrames(n.Of(side).log);
    }
  }

  lemma NetStepIsStep(cs: Configs, n: Net, ns: NetStep)
    requires NetFits(cs, n) && NetEnabled(cs, n, ns)
    ensures Enabled(cs.Of(ns.side), n.Of(ns.side), ns.step)
  {
  }

  lemma StepsOfCons(steps: seq<NetStep>, side: Side)
    requires steps != []
    ensures steps[0].side != side ==> StepsOf(steps, side) == StepsOf(steps[1..], side)
    ensures steps[0].side == side ==>
              var own := StepsOf(steps, side);
              own != [] && own[0] == steps[0].step && own[1..] == StepsOf(steps[1..], side)
  {
  }

  /** The frames that one side takes, and those on their way to it, are the frames that the
      other side wrote, in their order, each once.  When every write found its internal id
      free, these are the frames of the started messages. */
  lemma FramesArriveInOrder(cs: Configs, steps: seq<NetStep>, side: Side)
    requires NetFits(cs, INITIAL_NET) && ValidNetRun(cs, INITIAL_NET, steps)
    ensures var r, written := NetRun(cs, INITIAL_NET, steps), WrittenBy(cs, INITIAL_NET, steps, side);
            && TakenBy(cs, INITIAL_NET, steps, side.Other()) + Frames(r.Stream(side)) == written
            && Rest(r.Stream(side)) == []
            && ValidRun(cs.Of(side), INITIAL_STATE, StepsOf(steps, side))
            && (FreeIds(cs.Of(side), INITIAL_STATE, StepsOf(steps, side)) ==> written == StartedFrames(r.Of(side).log))
  {
    hide FreeIds, StartedFrames, WrittenBy, TakenBy, NetRun, ValidNetRun, ValidRun, StepsOf, Frames, Rest, WholeNet;
    InitialNetIsWhole();
    StreamsAreQueues(cs, INITIAL_NET, steps, side);
    WholeNetHasNoRest(NetRun(cs, INITIAL_NET, steps), side);
    assert StartedFrames(INITIAL_STATE.log) == [] by { NothingStarted(); }
    assert INITIAL_NET.Of(side) == INITIAL_STATE;
    SideOfNetRun(cs, INITIAL_NET, steps, side);
    assert [] + WrittenBy(cs, INITIAL_NET, steps, side) == WrittenBy(cs, INITIAL_NET, steps, side);
    if FreeIds(cs.Of(side), INITIAL_STATE, StepsOf(steps, side)) {
      WrittenAreStarted(cs, INITIAL_NET, steps, side);
    }
  }
}
