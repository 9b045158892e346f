/**
 What the phases of mt_process achieve, whether or not a callback throws.
 */
module CommPhases {
  import opened BasicDetail
  import opened BinMessages
  import opened CommHistories
  import opened CommPasses
  import opened CommStates
  import opened MessageDecoder
  import opened Optional
  import opened Sequences
  import opened Sets

  // ---- sent messages ----------------------------------------------------------------

  lemma {:induction false} SendAllKeepsCallbacks(c: Config, s: State, requests: seq<SendRequest>)
    requires s.CountersFit(c)
    ensures SentCallbacks(SendAll(c, s, requests).log) == SentCallbacks(s.log)
    decreases |requests|
  {
    if requests != [] {
      var next := PrepareToWrite(c, s, requests[0].message, requests[0].encodes);
      PrepareEmits(c, s, Send(requests[0]), requests[0].message, requests[0].encodes);
      SendAllKeepsCallbacks(c, next, requests[1..]);
    }
  }

  lemma NotifyAddsCallback(c: Config, s: State)
    requires s.sentMessages != []
    ensures SentCallbacks(NotifyFirstSent(c, s).log) == SentCallbacks(s.log) + [s.sentMessages[0]]
  {
  }

  /** One entry: the callback is recorded, and nothing of it depends on how it ends. */
  lemma OneSentCallback(c: Config, s: State, user: User, made: seq<Callback>)
    requires s.CountersFit(c) && s.sentMessages != []
    ensures var r := Call(c, NotifyFirstSent(c, s), user, made, OnSent(s.sentMessages[0].id)).s;
            && r.sentMessages == s.sentMessages[1..]
            && SentCallbacks(r.log) == SentCallbacks(s.log) + [s.sentMessages[0]]
  {
    NotifyAddsCallback(c, s);
    SendAllKeepsCallbacks(c, NotifyFirstSent(c, s), user(|made|, OnSent(s.sentMessages[0].id)).sends);
  }

  /** What is left of a list of entries, and what the user was told, after some of them. */
  predicate ToldPrefix(before: State, after: State) {
    && |after.sentMessages| <= |before.sentMessages|
    && var told := |before.sentMessages| - |after.sentMessages|;
       && after.sentMessages == before.sentMessages[told..]
       && SentCallbacks(after.log) == SentCallbacks(before.log) + before.sentMessages[..told]
  }

  lemma ToldOneMore(before: State, next: State, after: State)
    requires before.sentMessages != [] && next.sentMessages == before.sentMessages[1..]
    requires SentCallbacks(next.log) == SentCallbacks(before.log) + [before.sentMessages[0]]
    requires ToldPrefix(next, after)
    ensures ToldPrefix(before, after)
  {
    hide SentCallbacks;
    var told := |next.sentMessages| - |after.sentMessages|;
    Associative(SentCallbacks(before.log), [before.sentMessages[0]], next.sentMessages[..told]);
    assert [before.sentMessages[0]] + next.sentMessages[..told] == before.sentMessages[..told + 1];
    assert next.sentMessages[told..] == before.sentMessages[told + 1..];
  }

  /** The phase tells the user about a prefix of the sent vector, in its order, and leaves
      the rest for the next call: all of it is told if nothing throws, and at least the
      first entry even if everything does. */
  lemma {:induction false} SentPassTellsPrefix(c: Config, s: State, user: User, made: seq<Callback>)
    requires s.CountersFit(c)
    ensures var p := SentPass(c, s, user, made);
            && ToldPrefix(s, p.s)
            && (s.sentMessages != [] ==> |p.s.sentMessages| < |s.sentMessages|)
            && (!p.threw ==> p.s.sentMessages == [])
    decreases |s.sentMessages|
  {
    hide Call, NotifyFirstSent, SentCallbacks;
    if s.sentMessages == [] {
      assert SentCallbacks(s.log) + [] == SentCallbacks(s.log);
    } else {
      var called := Call(c, NotifyFirstSent(c, s), user, made, OnSent(s.sentMessages[0].id));
      OneSentCallback(c, s, user, made);
      if called.threw {
        assert ToldPrefix(s, called.s);
      } else {
        SentPassTellsPrefix(c, called.s, user, called.calls);
        ToldOneMore(s, called.s, SentPass(c, called.s, user, called.calls).s);
      }
    }
  }

  /** Repeated calls of mt_process that get no further than the sent phase. */
  function SentPasses(c: Config, s: State, users: seq<User>): (r: State)
    requires s.CountersFit(c)
    ensures r.CountersFit(c)
    decreases |users|
  {
    if users == [] then s else SentPasses(c, SentPass(c, s, users[0], []).s, users[1..])
  }

  lemma ToldAndUntold(before: State, after: State)
    requires ToldPrefix(before, after)
    ensures SentCallbacks(after.log) + after.sentMessages == SentCallbacks(before.log) + before.sentMessages
  {
    SplitTail(SentCallbacks(before.log), before.sentMessages, |before.sentMessages| - |after.sentMessages|);
  }

  /** However the callbacks throw, as many calls as there are completed writes are enough to
      tell the user about each of them, exactly once and in the order of completion. */
  lemma {:induction false} ThrowingCallbacksLoseNothing(c: Config, s: State, users: seq<User>)
    requires s.CountersFit(c) && |users| >= |s.sentMessages|
    ensures var r := SentPasses(c, s, users);
            r.sentMessages == [] && SentCallbacks(r.log) == SentCallbacks(s.log) + s.sentMessages
    decreases |users|
  {
    hide SentPass, SentCallbacks, ToldPrefix;
    if users == [] {
      assert s.sentMessages == [] && SentCallbacks(s.log) + [] == SentCallbacks(s.log);
    } else {
      var next := SentPass(c, s, users[0], []).s;
      SentPassTellsPrefix(c, s, users[0], []);
      ToldAndUntold(s, next);
      FewerLeft(s, next);
      ThrowingCallbacksLoseNothing(c, next, users[1..]);
    }
  }

  lemma FewerLeft(before: State, after: State)
    requires ToldPrefix(before, after)
    ensures |after.sentMessages| <= |before.sentMessages|
  {
  }

  // ---- timeouts ---------------------------------------------------------------------

  function ElapsedOf(todo: set<nat>, elapsed: nat -> bool): set<nat> {
    set k | k in todo && elapsed(k)
  }

  lemma ElapsedOfRest(todo: set<nat>, mid: nat, elapsed: nat -> bool)
    requires IsLeast(mid, todo)
    ensures elapsed(mid) ==> IsLeast(mid, ElapsedOf(todo, elapsed))
    ensures ElapsedOf(todo - {mid}, elapsed) == ElapsedOf(todo, elapsed) - {mid}
    ensures !elapsed(mid) ==> ElapsedOf(todo - {mid}, elapsed) == ElapsedOf(todo, elapsed)
    ensures ElapsedOf(todo, elapsed) <= todo
  {
  }

  /** Some of the elapsed requests were closed, and none of these was passed over. */
  predicate ClosesInOrder(before: map<nat, Name>, after: map<nat, Name>, elapsed: set<nat>) {
    var closed := before.Keys - after.Keys;
    && after == before - closed && closed <= elapsed
    && forall k, j | k in closed && j in elapsed && j < k :: j in closed
  }

  /** All of the elapsed requests were closed. */
  predicate ClosesAll(before: map<nat, Name>, after: map<nat, Name>, elapsed: set<nat>) {
    before.Keys - after.Keys == elapsed
  }

  lemma ClosesOneMore(before: map<nat, Name>, mid: nat, after: map<nat, Name>, elapsed: set<nat>)
    requires ClosesInOrder(before - {mid}, after, elapsed - {mid}) && elapsed <= before.Keys && IsLeast(mid, elapsed)
    ensures ClosesInOrder(before, after, elapsed)
    ensures ClosesAll(before - {mid}, after, elapsed - {mid}) ==> ClosesAll(before, after, elapsed)
  {
  }

  /** Closes elapsed requests only, in ascending order, and all of them if nothing throws. */
  lemma {:induction false} TimeoutPassClosesElapsed(c: Config, s: State, todo: set<nat>, elapsed: nat -> bool,
                                                    user: User, made: seq<Callback>)
    requires s.CountersFit(c) && todo <= s.mesTimeouts.Keys
    ensures var p := TimeoutPass(c, s, todo, elapsed, user, made);
            && ClosesInOrder(s.mesTimeouts, p.s.mesTimeouts, ElapsedOf(todo, elapsed))
            && (!p.threw ==> ClosesAll(s.mesTimeouts, p.s.mesTimeouts, ElapsedOf(todo, elapsed)))
    decreases |todo|
  {
    hide Call, ClosesInOrder, ClosesAll, ElapsedOf, IsLeast;
    if todo == {} {
      NoneClosed(s.mesTimeouts, {});
      assert ElapsedOf({}, elapsed) == {} by { ElapsedOfNone(elapsed); }
    } else {
      var mid := LeastOf(todo);
      ElapsedOfRest(todo, mid, elapsed);
      if !elapsed(mid) {
        TimeoutPassClosesElapsed(c, s, todo - {mid}, elapsed, user, made);
      } else {
        var called := Call(c, TimedOut(s, mid), user, made, OnTimeout(mid));
        if called.threw {
          NoneClosed(called.s.mesTimeouts, ElapsedOf(todo - {mid}, elapsed));
        } else {
          TimeoutPassClosesElapsed(c, called.s, todo - {mid}, elapsed, user, called.calls);
        }
        ClosesOneMore(s.mesTimeouts, mid, TimeoutPass(c, s, todo, elapsed, user, made).s.mesTimeouts, ElapsedOf(todo, elapsed));
      }
    }
  }

  lemma ElapsedOfNone(elapsed: nat -> bool)
    ensures ElapsedOf({}, elapsed) == {}
  {
  }

  lemma NoneClosed(m: map<nat, Name>, elapsed: set<nat>)
    ensures ClosesInOrder(m, m, elapsed) && ClosesAll(m, m, {})
  {
  }

  // ---- reading and writing ----------------------------------------------------------

  lemma StartTakesOne(c: Config, s: State, front: nat)
    requires s.CountersFit(c) && front < |s.queue|
    ensures |StartOneWrite(c, s, front).queue| == |s.queue| - 1
  {
  }

  /** Takes as many messages from the queue as the time allows. */
  lemma {:induction false} WritePassEmptiesQueue(c: Config, s: State, front: seq<PreparedMessage> -> nat, quota: nat)
    requires s.CountersFit(c)
    ensures |WritePass(c, s, front, quota).queue| == if |s.queue| <= quota then 0 else |s.queue| - quota
    decreases quota
  {
    hide StartOneWrite, Pick;
    if quota > 0 && s.queue != [] {
      var next := StartOneWrite(c, s, Pick(front, s.queue));
      StartTakesOne(c, s, Pick(front, s.queue));
      WritePassEmptiesQueue(c, next, front, quota - 1);
    }
  }

  lemma ArrivedOneTakesFrame(c: Config, s: State, user: User, made: seq<Callback>)
    requires s.CountersFit(c) && s.delivery.None? && s.inBufferUpdated
    ensures var p := ArrivedOne(c, s, user, made);
            && p.s.inBufferUpdated == FirstFrame(s.inBuffer).Some? && Rest(p.s.inBuffer) == Rest(s.inBuffer)
            && (FirstFrame(s.inBuffer).None? ==> !p.threw && p.s.inBuffer == s.inBuffer == Rest(s.inBuffer))
  {
  }

  /** A late or unknown reply is dropped in silence, and one that its request does not allow
      throws.  Either way there is no callback, and the open requests and everything else
      stay as they were; only the frame is gone. */
  lemma RejectedReplyThrowsIff(c: Config, s: State, user: User, made: seq<Callback>, m: Message)
    requires s.CountersFit(c) && s.delivery.None? && m.RidExists()
    requires Taken(c.platform, c.catalog, s.inBuffer) == Some(Ok(m))
    requires m.rid !in s.mesTimeouts || !c.IsAllowedReply(s.mesTimeouts[m.rid], m.name)
    ensures var p := ArrivedOne(c, s, user, made);
            && p.s == Cut(s).(log := p.s.log) && Replay(p.s.log) == Replay(s.log) && p.calls == made
            && (p.threw <==> m.rid in s.mesTimeouts)
  {
    hide Taken, AfterFirstFrame;
    var r := ProcessIncoming(c, Cut(s), m);
    assert DecodeFirst(c, s) == r;
    assert r.log.past == s.log && !r.log.event.ArrivedCallback?;
  }

  /** The same for the whole phase: such a reply ends the call exactly if it is disallowed,
      and otherwise the phase goes on as if only the frame had gone. */
  lemma RejectedReplyEndsPhaseIff(c: Config, s: State, user: User, made: seq<Callback>, quota: nat, m: Message)
    requires s.CountersFit(c) && s.delivery.None? && m.RidExists() && s.inBufferUpdated && quota > 0
    requires Taken(c.platform, c.catalog, s.inBuffer) == Some(Ok(m))
    requires m.rid !in s.mesTimeouts || !c.IsAllowedReply(s.mesTimeouts[m.rid], m.name)
    ensures var next := ArrivedOne(c, s, user, made).s;
            && next == Cut(s).(log := next.log) && Replay(next.log) == Replay(s.log)
            && ArrivedPass(c, s, user, made, quota) ==
               if m.rid in s.mesTimeouts then Pass(next, made, true) else ArrivedPass(c, next, user, made, quota - 1)
  {
    hide ArrivedOne, Taken;
    RejectedReplyThrowsIff(c, s, user, made, m);
  }

  /** Decoding takes whole frames from the front.  Unless something throws, time for one
      pass more than there are end markers is enough to take every complete frame: the loop
      needs its timer only to give way to others. */
  lemma {:induction false} ArrivedPassDrainsBuffer(c: Config, s: State, user: User, made: seq<Callback>, quota: nat)
    requires s.CountersFit(c) && s.delivery.None? && s.inBufferUpdated
    ensures var p := ArrivedPass(c, s, user, made, quota);
            && Rest(p.s.inBuffer) == Rest(s.inBuffer)
            && (!p.threw && quota > CountEnds(s.inBuffer) ==> p.s.inBuffer == Rest(s.inBuffer) && !p.s.inBufferUpdated)
    decreases quota
  {
    hide ArrivedOne, FirstFrame;
    if quota > 0 {
      var p := ArrivedOne(c, s, user, made);
      TakingAFrameRemovesOneMarker(s.inBuffer);
      ArrivedOneTakesFrame(c, s, user, made);
      if !p.threw {
        if FirstFrame(s.inBuffer).None? {
        } else {
          ArrivedPassDrainsBuffer(c, p.s, user, p.calls, quota - 1);
        }
      }
    }
  }

  /** A call that does not throw leaves nothing behind: no finished write is untold, no error
      unreported, no elapsed request open, and, if time allowed it, no frame undecoded. */
  lemma QuietCallsFinishTheirWork(c: Config, s: State, env: Surroundings)
    requires s.CountersFit(c) && s.delivery.None? && !MtProcess(c, s, env).threw
    ensures var r := MtProcess(c, s, env).s;
            && r.sentMessages == [] && !r.justConnected && !r.readError && !r.writeError
            && (c.timeoutsEnabled ==> forall k | k in r.mesTimeouts :: !env.elapsed(k))
            && (r.sessionValid && s.inBufferUpdated && env.incomingQuota > CountEnds(s.inBuffer) ==>
                  r.inBuffer == Rest(s.inBuffer))
  {
    hide ConnectPass, SentPass, ArrivedPass, WritePass, TimeoutPass, ProcessedPass, FinishProcess, SentCallbacks;
    var connected := ConnectPass(c, s, env);
    var sent := SentPass(c, connected.s, env.user, connected.calls);
    SentPassTellsPrefix(c, connected.s, env.user, connected.calls);
    if sent.s.inBuffer != [] && sent.s.sessionValid {
      var arrived := ArrivedPass(c, sent.s, env.user, sent.calls, env.incomingQuota);
      if s.inBufferUpdated {
        ArrivedPassDrainsBuffer(c, sent.s, env.user, sent.calls, env.incomingQuota);
      }
      FinishClosesElapsed(c, arrived.s, env, arrived.calls);
    } else {
      FinishClosesElapsed(c, sent.s, env, sent.calls);
    }
  }

  lemma FinishClosesElapsed(c: Config, s: State, env: Surroundings, made: seq<Callback>)
    requires s.CountersFit(c) && s.delivery.None? && !FinishProcess(c, s, env, made).threw
    ensures var r := FinishProcess(c, s, env, made).s;
            && !r.readError && !r.writeError
            && r.sentMessages == s.sentMessages && r.justConnected == s.justConnected
            && r.sessionValid == s.sessionValid && r.inBuffer == s.inBuffer
            && (c.timeoutsEnabled ==> forall k | k in r.mesTimeouts :: !env.elapsed(k))
  {
    hide WritePass, TimeoutPass, ProcessedPass, ClosesInOrder;
    var written := WritePass(c, s, env.front, env.outgoingQuota);
    if c.timeoutsEnabled {
      var todo := written.mesTimeouts.Keys;
      var timed := TimeoutPass(c, written, todo, env.elapsed, env.user, made);
      TimeoutPassClosesElapsed(c, written, todo, env.elapsed, env.user, made);
      RestHasNotElapsed(written.mesTimeouts, timed.s.mesTimeouts, env.elapsed);
    }
  }

  lemma RestHasNotElapsed(before: map<nat, Name>, after: map<nat, Name>, elapsed: nat -> bool)
    requires ClosesInOrder(before, after, ElapsedOf(before.Keys, elapsed))
    requires ClosesAll(before, after, ElapsedOf(before.Keys, elapsed))
    ensures forall k | k in after :: !elapsed(k)
  {
  }
}
