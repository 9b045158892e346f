/**
 One call of mt_process, phase by phase.  A phase is a loop over steps of the communicator,
 with the user's callbacks in between; a callback may send messages, may answer the
 message it was given, and may throw, which ends the whole call.
 */
module CommPasses {
  import opened BasicDetail
  import opened BinMessages
  import opened CommHistories
  import opened CommStates
  import opened MessageDecoder
  import opened Optional
  import opened Sets

  datatype Callback =
    | OnConnected
    | OnSent(mid: nat)
    | OnArrived(message: Message, outId: nat)
    | OnTimeout(mid: nat)
    | OnProcessed

  datatype Reaction = Reaction(sends: seq<SendRequest>, reply: Option<SendRequest>, throws: bool)

  /** What the user does in a callback, given how many the same mt_process has made before. */
  type User = (nat, Callback) -> Reaction

  /** Everything that one call of mt_process depends on besides the communicator: whether the
      session factory returns, what the user does, how many passes the incoming and outgoing
      time quanta allow, which message the priority queue yields, and which timeouts have
      elapsed. */
  datatype Surroundings = Surroundings(
    sessionCreated: bool,
    user: User,
    incomingQuota: nat,
    outgoingQuota: nat,
    front: seq<PreparedMessage> -> nat,
    elapsed: nat -> bool)

  /** Where a phase ended: the state, the callbacks made so far, and whether it threw. */
  datatype Pass = Pass(s: State, calls: seq<Callback>, threw: bool)

  function Pick(front: seq<PreparedMessage> -> nat, queue: seq<PreparedMessage>): (i: nat)
    requires queue != []
    ensures i < |queue|
  {
    if front(queue) < |queue| then front(queue) else 0
  }

  // ---- the phases -------------------------------------------------------------------

  function SendAll(c: Config, s: State, requests: seq<SendRequest>): (r: State)
    requires s.CountersFit(c)
    ensures r.CountersFit(c)
    ensures r == s.(mesid := r.mesid, midCalls := r.midCalls, queue := r.queue, log := r.log)
    decreases |requests|
  {
    if requests == [] then s
    else SendAll(c, PrepareToWrite(c, s, requests[0].message, requests[0].encodes), requests[1..])
  }

  function Call(c: Config, s: State, user: User, made: seq<Callback>, callback: Callback): (p: Pass)
    requires s.CountersFit(c)
    ensures p.s.CountersFit(c) && p.calls == made + [callback]
    ensures p.s == s.(mesid := p.s.mesid, midCalls := p.s.midCalls, queue := p.s.queue, log := p.s.log)
  {
    Pass(SendAll(c, s, user(|made|, callback).sends), made + [callback], user(|made|, callback).throws)
  }

  function ConnectPass(c: Config, s: State, env: Surroundings): (p: Pass)
    requires s.CountersFit(c)
    ensures p.s.CountersFit(c) && (!p.threw ==> !p.s.justConnected)
    ensures p.s == s.(justConnected := false, sessionValid := p.s.sessionValid,
                      mesid := p.s.mesid, midCalls := p.s.midCalls, queue := p.s.queue, log := p.s.log)
  {
    if !s.justConnected then Pass(s, [], false)
    else
      var s1 := s.(justConnected := false, sessionValid := s.sessionValid || env.sessionCreated);
      if !s1.sessionValid then Pass(s1, [], true) else Call(c, s1, env.user, [], OnConnected)
  }

  function SentPass(c: Config, s: State, user: User, made: seq<Callback>): (p: Pass)
    requires s.CountersFit(c)
    ensures p.s.CountersFit(c)
    ensures p.s == s.(sentMessages := p.s.sentMessages, mesTimeouts := p.s.mesTimeouts,
                      mesid := p.s.mesid, midCalls := p.s.midCalls, queue := p.s.queue, log := p.s.log)
    decreases |s.sentMessages|
  {
    if s.sentMessages == [] then Pass(s, made, false)
    else
      var p := Call(c, NotifyFirstSent(c, s), user, made, OnSent(s.sentMessages[0].id));
      if p.threw then p else SentPass(c, p.s, user, p.calls)
  }

  /** The user's arrived handler has the delivery; it returns an answer or throws. */
  function Deliver(c: Config, s: State, user: User, made: seq<Callback>): (p: Pass)
    requires s.CountersFit(c) && s.delivery.Some?
    ensures p.s.CountersFit(c) && p.s.delivery.None?
    ensures p.s == s.(mesid := p.s.mesid, midCalls := p.s.midCalls, queue := p.s.queue, delivery := None, log := p.s.log)
  {
    var d := s.delivery.value;
    var callback := OnArrived(d.message, d.outId);
    var called := Call(c, s, user, made, callback);
    var idle := called.s.(delivery := None);
    var reply := user(|made|, callback).reply;
    if called.threw || reply.None? then Pass(idle, made + [callback], called.threw)
    else
      var r := PrepareToWrite(c, idle, ReplyTo(c, d, reply.value.message), reply.value.encodes);
      Pass(r, made + [callback], r.queue == idle.queue)
  }

  /** The decoder threw, or the reply is one that the request does not allow. */
  predicate Rejected(c: Config, s: State, taken: Option<Result<Message>>) {
    match taken
    case Some(Throws(_)) => true
    case Some(Ok(m)) => m.RidExists() && m.rid in s.mesTimeouts && !c.IsAllowedReply(s.mesTimeouts[m.rid], m.name)
    case None => false
  }

  /** What follows when a message was looked at: its handler, an exception, or nothing. */
  function Finish(c: Config, s: State, user: User, made: seq<Callback>, rejected: bool): (p: Pass)
    requires s.CountersFit(c)
    ensures p.s.CountersFit(c) && p.s.delivery.None?
    ensures p.s == s.(mesid := p.s.mesid, midCalls := p.s.midCalls, queue := p.s.queue, delivery := None, log := p.s.log)
  {
    if s.delivery.Some? then Deliver(c, s, user, made) else Pass(s, made, rejected)
  }

  /** One pass of the decode loop with the callback it leads to. */
  function ArrivedOne(c: Config, s: State, user: User, made: seq<Callback>): (p: Pass)
    requires s.CountersFit(c) && s.delivery.None?
    ensures p.s.CountersFit(c) && p.s.inBuffer == AfterFirstFrame(s.inBuffer)
    ensures p.s == s.(inBuffer := p.s.inBuffer, inBufferUpdated := p.s.inBufferUpdated, mesTimeouts := p.s.mesTimeouts,
                      mesid := p.s.mesid, midCalls := p.s.midCalls, queue := p.s.queue, log := p.s.log)
  {
    Finish(c, DecodeFirst(c, s), user, made, Rejected(c, s, Taken(c.platform, c.catalog, s.inBuffer)))
  }

  function ArrivedPass(c: Config, s: State, user: User, made: seq<Callback>, quota: nat): (p: Pass)
    requires s.CountersFit(c) && s.delivery.None?
    ensures p.s.CountersFit(c)
    ensures p.s == s.(inBuffer := p.s.inBuffer, inBufferUpdated := p.s.inBufferUpdated, mesTimeouts := p.s.mesTimeouts,
                      mesid := p.s.mesid, midCalls := p.s.midCalls, queue := p.s.queue, log := p.s.log)
    decreases quota
  {
    if quota == 0 || !s.inBufferUpdated then Pass(s, made, false)
    else
      var p := ArrivedOne(c, s, user, made);
      if p.threw then p else ArrivedPass(c, p.s, user, p.calls, quota - 1)
  }

  function WritePass(c: Config, s: State, front: seq<PreparedMessage> -> nat, quota: nat): (r: State)
    requires s.CountersFit(c)
    ensures r.CountersFit(c)
    ensures r == s.(queue := r.queue, internalMid := r.internalMid, outBuffers := r.outBuffers, writing := r.writing,
                    log := r.log)
    decreases quota
  {
    if quota == 0 || s.queue == [] then s
    else WritePass(c, StartOneWrite(c, s, Pick(front, s.queue)), front, quota - 1)
  }

  /** `todo` are the requests that the iterator has not reached. */
  function TimeoutPass(c: Config, s: State, todo: set<nat>, elapsed: nat -> bool, user: User, made: seq<Callback>): (p: Pass)
    requires s.CountersFit(c) && todo <= s.mesTimeouts.Keys
    ensures p.s.CountersFit(c)
    ensures p.s == s.(mesTimeouts := p.s.mesTimeouts,
                      mesid := p.s.mesid, midCalls := p.s.midCalls, queue := p.s.queue, log := p.s.log)
    decreases |todo|
  {
    if todo == {} then Pass(s, made, false)
    else
      var mid := LeastOf(todo);
      if !elapsed(mid) then TimeoutPass(c, s, todo - {mid}, elapsed, user, made)
      else
        var p := Call(c, TimedOut(s, mid), user, made, OnTimeout(mid));
        if p.threw then p else TimeoutPass(c, p.s, todo - {mid}, elapsed, user, p.calls)
  }

  /** The errors are cleared before the exception that reports them. */
  function ErrorPass(s: State, made: seq<Callback>): Pass {
    Pass(s.(readError := false, writeError := false), made, s.readError || s.writeError)
  }

  function ProcessedPass(c: Config, s: State, user: User, made: seq<Callback>): (p: Pass)
    requires s.CountersFit(c)
    ensures p.s.CountersFit(c)
    ensures p.s == s.(mesid := p.s.mesid, midCalls := p.s.midCalls, queue := p.s.queue, log := p.s.log)
  {
    if s.sessionValid then Call(c, s, user, made, OnProcessed) else Pass(s, made, false)
  }

  /** The phases in their order: sent before arrived, so that a request is open before its
      reply is looked at; writing after both; then timeouts, errors and the last callback. */
  function MtProcess(c: Config, s: State, env: Surroundings): (p: Pass)
    requires s.CountersFit(c) && s.delivery.None?
    ensures p.s.CountersFit(c) && p.s.delivery.None?
  {
    var connected := ConnectPass(c, s, env);
    if connected.threw then connected
    else
      var sent := SentPass(c, connected.s, env.user, connected.calls);
      if sent.threw then sent
      else
        var arrived :=
          if sent.s.inBuffer != [] && sent.s.sessionValid
          then ArrivedPass(c, sent.s, env.user, sent.calls, env.incomingQuota)
          else sent;
        if arrived.threw then arrived else FinishProcess(c, arrived.s, env, arrived.calls)
  }

  function FinishProcess(c: Config, s: State, env: Surroundings, made: seq<Callback>): (p: Pass)
    requires s.CountersFit(c) && s.delivery.None?
    ensures p.s.CountersFit(c) && p.s.delivery.None?
  {
    var written := WritePass(c, s, env.front, env.outgoingQuota);
    var timed :=
      if c.timeoutsEnabled
      then TimeoutPass(c, written, written.mesTimeouts.Keys, env.elapsed, env.user, made)
      else Pass(written, made, false);
    if timed.threw then timed
    else
      var checked := ErrorPass(timed.s, timed.calls);
      if checked.threw then checked else ProcessedPass(c, checked.s, env.user, checked.calls)
  }

  // ---- phases are runs --------------------------------------------------------------

  ghost predicate Reaches(c: Config, s: State, r: State)
    requires s.CountersFit(c)
  {
    exists steps: seq<Step> :: ValidRun(c, s, steps) && Run(c, s, steps) == r
  }

  lemma StaysReached(c: Config, s: State)
    requires s.CountersFit(c)
    ensures Reaches(c, s, s)
  {
    assert ValidRun(c, s, []) && Run(c, s, []) == s;
  }

  lemma StepReaches(c: Config, s: State, step: Step)
    requires s.CountersFit(c) && Enabled(c, s, step)
    ensures Reaches(c, s, Apply(c, s, step))
  {
    var r := Apply(c, s, step);
    assert [step][1..] == [];
    assert ValidRun(c, r, []);
    assert ValidRun(c, s, [step]) && Run(c, s, [step]) == r;
  }

  lemma ReachesOn(c: Config, s: State, r: State, t: State)
    requires s.CountersFit(c) && r.CountersFit(c) && Reaches(c, s, r) && Reaches(c, r, t)
    ensures Reaches(c, s, t)
  {
    var first: seq<Step> :| ValidRun(c, s, first) && Run(c, s, first) == r;
    var second: seq<Step> :| ValidRun(c, r, second) && Run(c, r, second) == t;
    RunAppend(c, s, first, second);
  }

  lemma ThenStepReaches(c: Config, s: State, r: State, step: Step)
    requires s.CountersFit(c) && r.CountersFit(c) && Reaches(c, s, r) && Enabled(c, r, step)
    ensures Reaches(c, s, Apply(c, r, step))
  {
    StepReaches(c, r, step);
    ReachesOn(c, s, r, Apply(c, r, step));
  }

  lemma {:induction false} SendAllReaches(c: Config, s: State, requests: seq<SendRequest>)
    requires s.CountersFit(c)
    ensures Reaches(c, s, SendAll(c, s, requests))
    decreases |requests|
  {
    if requests == [] {
      StaysReached(c, s);
    } else {
      var next := PrepareToWrite(c, s, requests[0].message, requests[0].encodes);
      StepReaches(c, s, Send(requests[0]));
      assert Apply(c, s, Send(requests[0])) == next;
      SendAllReaches(c, next, requests[1..]);
      ReachesOn(c, s, next, SendAll(c, next, requests[1..]));
    }
  }

  /** A step and then the callback it leads to. */
  lemma StepAndCallReach(c: Config, s: State, step: Step, user: User, made: seq<Callback>, callback: Callback)
    requires s.CountersFit(c) && Enabled(c, s, step)
    ensures Reaches(c, s, Call(c, Apply(c, s, step), user, made, callback).s)
  {
    var next := Apply(c, s, step);
    StepReaches(c, s, step);
    SendAllReaches(c, next, user(|made|, callback).sends);
    ReachesOn(c, s, next, Call(c, next, user, made, callback).s);
  }

  lemma ConnectPassReaches(c: Config, s: State, env: Surroundings)
    requires s.CountersFit(c) && s.delivery.None?
    ensures Reaches(c, s, ConnectPass(c, s, env).s)
  {
    if s.justConnected {
      StepReaches(c, s, ProcessConnect(env.sessionCreated));
      StepAndCallReach(c, s, ProcessConnect(env.sessionCreated), env.user, [], OnConnected);
    } else {
      StaysReached(c, s);
    }
  }

  lemma {:induction false} SentPassReaches(c: Config, s: State, user: User, made: seq<Callback>)
    requires s.CountersFit(c) && s.delivery.None?
    ensures Reaches(c, s, SentPass(c, s, user, made).s)
    decreases |s.sentMessages|
  {
    if s.sentMessages == [] {
      StaysReached(c, s);
    } else {
      var callback := OnSent(s.sentMessages[0].id);
      assert Apply(c, s, ProcessOneSent) == NotifyFirstSent(c, s);
      StepAndCallReach(c, s, ProcessOneSent, user, made, callback);
      var p := Call(c, NotifyFirstSent(c, s), user, made, callback);
      if !p.threw {
        SentPassReaches(c, p.s, user, p.calls);
        ReachesOn(c, s, p.s, SentPass(c, p.s, user, p.calls).s);
      }
    }
  }

  lemma DeliverReaches(c: Config, s: State, user: User, made: seq<Callback>)
    requires s.CountersFit(c) && s.delivery.Some?
    ensures Reaches(c, s, Deliver(c, s, user, made).s)
  {
    var d := s.delivery.value;
    var called := Call(c, s, user, made, OnArrived(d.message, d.outId));
    var reaction := user(|made|, OnArrived(d.message, d.outId));
    SendAllReaches(c, s, reaction.sends);
    if called.threw {
      ThenStepReaches(c, s, called.s, HandlerThrows);
    } else {
      ThenStepReaches(c, s, called.s, HandlerReturns(reaction.reply));
    }
  }

  lemma ArrivedOneReaches(c: Config, s: State, user: User, made: seq<Callback>)
    requires s.CountersFit(c) && Enabled(c, s, DecodeOne)
    ensures Reaches(c, s, ArrivedOne(c, s, user, made).s)
  {
    var s1 := DecodeFirst(c, s);
    StepReaches(c, s, DecodeOne);
    assert Apply(c, s, DecodeOne) == s1;
    if s1.delivery.Some? {
      DeliverReaches(c, s1, user, made);
      ReachesOn(c, s, s1, Deliver(c, s1, user, made).s);
    }
  }

  lemma {:induction false} ArrivedPassReaches(c: Config, s: State, user: User, made: seq<Callback>, quota: nat)
    requires s.CountersFit(c) && s.delivery.None? && s.sessionValid
    ensures Reaches(c, s, ArrivedPass(c, s, user, made, quota).s)
    decreases quota
  {
    hide Reaches, ArrivedOne;
    if quota == 0 || !s.inBufferUpdated {
      StaysReached(c, s);
    } else {
      var p := ArrivedOne(c, s, user, made);
      ArrivedOneReaches(c, s, user, made);
      if !p.threw {
        ArrivedPassReaches(c, p.s, user, p.calls, quota - 1);
        ReachesOn(c, s, p.s, ArrivedPass(c, p.s, user, p.calls, quota - 1).s);
      }
    }
  }

  lemma {:induction false} WritePassReaches(c: Config, s: State, front: seq<PreparedMessage> -> nat, quota: nat)
    requires s.CountersFit(c) && s.delivery.None?
    ensures Reaches(c, s, WritePass(c, s, front, quota))
    decreases quota
  {
    hide Reaches, StartOneWrite, Pick;
    if quota == 0 || s.queue == [] {
      StaysReached(c, s);
    } else {
      var next := StartOneWrite(c, s, Pick(front, s.queue));
      StepReaches(c, s, StartWrite(Pick(front, s.queue)));
      assert Apply(c, s, StartWrite(Pick(front, s.queue))) == next;
      WritePassReaches(c, next, front, quota - 1);
      ReachesOn(c, s, next, WritePass(c, next, front, quota - 1));
    }
  }

  lemma {:induction false} TimeoutPassReaches(c: Config, s: State, todo: set<nat>, elapsed: nat -> bool,
                                              user: User, made: seq<Callback>)
    requires s.CountersFit(c) && s.delivery.None? && c.timeoutsEnabled && todo <= s.mesTimeouts.Keys
    ensures Reaches(c, s, TimeoutPass(c, s, todo, elapsed, user, made).s)
    decreases |todo|
  {
    if todo == {} {
      StaysReached(c, s);
    } else {
      var mid := LeastOf(todo);
      if !elapsed(mid) {
        TimeoutPassReaches(c, s, todo - {mid}, elapsed, user, made);
      } else {
        StepAndCallReach(c, s, ProcessOneTimeout(mid), user, made, OnTimeout(mid));
        var p := Call(c, Apply(c, s, ProcessOneTimeout(mid)), user, made, OnTimeout(mid));
        if !p.threw {
          TimeoutPassReaches(c, p.s, todo - {mid}, elapsed, user, p.calls);
          ReachesOn(c, s, p.s, TimeoutPass(c, p.s, todo - {mid}, elapsed, user, p.calls).s);
        }
      }
    }
  }

  lemma ErrorPassReaches(c: Config, s: State, made: seq<Callback>)
    requires s.CountersFit(c) && s.delivery.None?
    ensures Reaches(c, s, ErrorPass(s, made).s)
  {
    if s.readError || s.writeError {
      StepReaches(c, s, RaiseChannelError);
    } else {
      StaysReached(c, s);
    }
  }

  lemma FinishProcessReaches(c: Config, s: State, env: Surroundings, made: seq<Callback>)
    requires s.CountersFit(c) && s.delivery.None?
    ensures Reaches(c, s, FinishProcess(c, s, env, made).s)
  {
    hide Reaches, WritePass, TimeoutPass;
    var written := WritePass(c, s, env.front, env.outgoingQuota);
    WritePassReaches(c, s, env.front, env.outgoingQuota);
    var timed :=
      if c.timeoutsEnabled
      then TimeoutPass(c, written, written.mesTimeouts.Keys, env.elapsed, env.user, made)
      else Pass(written, made, false);
    if c.timeoutsEnabled {
      TimeoutPassReaches(c, written, written.mesTimeouts.Keys, env.elapsed, env.user, made);
      ReachesOn(c, s, written, timed.s);
    }
    if !timed.threw {
      var checked := ErrorPass(timed.s, timed.calls);
      ErrorPassReaches(c, timed.s, timed.calls);
      ReachesOn(c, s, timed.s, checked.s);
      if !checked.threw && checked.s.sessionValid {
        SendAllReaches(c, checked.s, env.user(|checked.calls|, OnProcessed).sends);
        ReachesOn(c, s, checked.s, ProcessedPass(c, checked.s, env.user, checked.calls).s);
      }
    }
  }

  /** A call of mt_process, whatever the user, the clock and the queue do, is a sequence of
      steps: all that is proved of runs is true of it, exceptions included. */
  lemma MtProcessIsRun(c: Config, s: State, env: Surroundings)
    requires s.CountersFit(c) && s.delivery.None?
    ensures Reaches(c, s, MtProcess(c, s, env).s)
  {
    var connected := ConnectPass(c, s, env);
    ConnectPassReaches(c, s, env);
    if !connected.threw {
      var sent := SentPass(c, connected.s, env.user, connected.calls);
      SentPassReaches(c, connected.s, env.user, connected.calls);
      ReachesOn(c, s, connected.s, sent.s);
      if !sent.threw {
        var arrived :=
          if sent.s.inBuffer != [] && sent.s.sessionValid
          then ArrivedPass(c, sent.s, env.user, sent.calls, env.incomingQuota)
          else sent;
        if sent.s.inBuffer != [] && sent.s.sessionValid {
          ArrivedPassReaches(c, sent.s, env.user, sent.calls, env.incomingQuota);
          ReachesOn(c, s, sent.s, arrived.s);
        }
        if !arrived.threw {
          FinishProcessReaches(c, arrived.s, env, arrived.calls);
          ReachesOn(c, s, arrived.s, FinishProcess(c, arrived.s, env, arrived.calls).s);
        }
      }
    }
  }
}
