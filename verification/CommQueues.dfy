/**
 What callbacks put into the queue and what a call of mt_process takes out of it: answers
 given in a call are written by the same call.
 */
module CommQueues {
  import opened BasicDetail
  import opened BinMessages
  import opened CommEffects
  import opened CommHistories
  import opened CommPasses
  import opened CommPhases
  import opened CommStates
  import opened MessageDecoder
  import opened Optional
  import opened Sets

  // ---- what a callback sends --------------------------------------------------------

  /** The queue entry holds the wire form of `m`, under its id if it has one. */
  predicate Carries(c: Config, prepared: PreparedMessage, m: Message) {
    var sent := Message(m.name, prepared.id, m.rid, m.tail);
    && (m.id != 0 || !c.useUniqueMessageId ==> prepared.id == m.id)
    && (m.id == 0 && c.useUniqueMessageId ==> prepared.id != 0)
    && prepared.name == m.name
    && Serialized(c.platform, sent).Some? && prepared.outBuffer == Frame(Serialized(c.platform, sent).value)
  }

  predicate IsEncodable(c: Config, request: SendRequest) {
    var m := request.message;
    request.encodes && FitsHeader(c, m.(id := if m.id != 0 || !c.useUniqueMessageId then m.id else 1))
  }

  lemma OneIsQueued(c: Config, s: State, request: SendRequest)
    requires s.CountersFit(c) && s.sessionValid && IsEncodable(c, request)
    ensures var r := PrepareToWrite(c, s, request.message, request.encodes);
            |r.queue| == |s.queue| + 1 && r.queue[..|s.queue|] == s.queue && Carries(c, r.queue[|s.queue|], request.message)
  {
    hide PrepareToWrite, Frame, Serialized;
    PreparedIff(c, s, request.message, request.encodes);
  }

  /** Whatever a callback sends is queued, all of it and in order, if it can be encoded. */
  lemma {:induction false} SendsAreQueued(c: Config, s: State, requests: seq<SendRequest>)
    requires s.CountersFit(c) && s.sessionValid && forall i | 0 <= i < |requests| :: IsEncodable(c, requests[i])
    ensures var r := SendAll(c, s, requests);
            && |r.queue| == |s.queue| + |requests| && r.queue[..|s.queue|] == s.queue
            && forall i | 0 <= i < |requests| :: Carries(c, r.queue[|s.queue| + i], requests[i].message)
    decreases |requests|
  {
    hide PrepareToWrite, Carries, IsEncodable;
    if requests != [] {
      var next := PrepareToWrite(c, s, requests[0].message, requests[0].encodes);
      OneIsQueued(c, s, requests[0]);
      SendsAreQueued(c, next, requests[1..]);
      var r := SendAll(c, s, requests);
      assert r.queue[|s.queue|] == r.queue[..|next.queue|][|s.queue|];
      assert r.queue[..|s.queue|] == r.queue[..|next.queue|][..|s.queue|];
      forall i | 0 <= i < |requests|
        ensures Carries(c, r.queue[|s.queue| + i], requests[i].message)
      {
        if i > 0 {
          assert requests[1..][i - 1] == requests[i];
        }
      }
    }
  }

  // ---- what is written --------------------------------------------------------------

  function CountAccepted(h: History): nat {
    if h.Start? then 0 else CountAccepted(h.past) + if h.event.Accepted? then 1 else 0
  }

  /** The queue grew by what was accepted. */
  predicate Balanced(s: State, r: State) {
    |r.queue| + CountAccepted(s.log) == |s.queue| + CountAccepted(r.log)
  }

  lemma PreparedBalances(c: Config, s: State, m: Message, encodes: bool)
    requires s.CountersFit(c)
    ensures Balanced(s, PrepareToWrite(c, s, m, encodes))
  {
    hide PrepareToWrite;
    PreparedIff(c, s, m, encodes);
  }

  lemma {:induction false} SendsBalance(c: Config, s: State, requests: seq<SendRequest>)
    requires s.CountersFit(c)
    ensures Balanced(s, SendAll(c, s, requests))
    decreases |requests|
  {
    hide PrepareToWrite, CountAccepted;
    if requests != [] {
      PreparedBalances(c, s, requests[0].message, requests[0].encodes);
      SendsBalance(c, PrepareToWrite(c, s, requests[0].message, requests[0].encodes), requests[1..]);
    }
  }

  lemma {:induction false} ExtensionAcceptsNothing(before: History, step: Step, after: History)
    requires Extends(before, step, after) && !step.Send? && !step.HandlerReturns?
    ensures CountAccepted(after) == CountAccepted(before)
  {
    if after != before {
      assert CountAccepted(after) == CountAccepted(after.past);
    }
  }

  lemma {:induction false} SentPassBalances(c: Config, s: State, user: User, made: seq<Callback>)
    requires s.CountersFit(c)
    ensures Balanced(s, SentPass(c, s, user, made).s)
    decreases |s.sentMessages|
  {
    hide NotifyFirstSent, SendAll, CountAccepted;
    if s.sentMessages != [] {
      var callback, told := OnSent(s.sentMessages[0].id), NotifyFirstSent(c, s);
      NotifyEmits(c, s);
      ExtensionAcceptsNothing(s.log, ProcessOneSent, told.log);
      SendsBalance(c, told, user(|made|, callback).sends);
      var p := Call(c, told, user, made, callback);
      if !p.threw {
        SentPassBalances(c, p.s, user, p.calls);
      }
    }
  }

  lemma DeliverBalances(c: Config, s: State, user: User, made: seq<Callback>)
    requires s.CountersFit(c) && s.delivery.Some?
    ensures Balanced(s, Deliver(c, s, user, made).s)
  {
    hide PrepareToWrite, ReplyTo, SendAll, CountAccepted;
    var d := s.delivery.value;
    var callback := OnArrived(d.message, d.outId);
    SendsBalance(c, s, user(|made|, callback).sends);
    var idle := Call(c, s, user, made, callback).s.(delivery := None);
    var reply := user(|made|, callback).reply;
    if reply.Some? {
      PreparedBalances(c, idle, ReplyTo(c, d, reply.value.message), reply.value.encodes);
    }
  }

  lemma ArrivedOneBalances(c: Config, s: State, user: User, made: seq<Callback>)
    requires s.CountersFit(c) && s.delivery.None?
    ensures Balanced(s, ArrivedOne(c, s, user, made).s)
  {
    hide ReactTo, Taken, AfterFirstFrame, Deliver, CountAccepted;
    var taken, r := Taken(c.platform, c.catalog, s.inBuffer), DecodeFirst(c, s);
    ReactionEmits(c, Cut(s), taken);
    ExtensionAcceptsNothing(s.log, DecodeOne, r.log);
    if r.delivery.Some? {
      DeliverBalances(c, r, user, made);
    }
  }

  lemma {:induction false} ArrivedPassBalances(c: Config, s: State, user: User, made: seq<Callback>, quota: nat)
    requires s.CountersFit(c) && s.delivery.None?
    ensures Balanced(s, ArrivedPass(c, s, user, made, quota).s)
    decreases quota
  {
    hide ArrivedOne, CountAccepted;
    if quota > 0 && s.inBufferUpdated {
      var p := ArrivedOne(c, s, user, made);
      ArrivedOneBalances(c, s, user, made);
      if !p.threw {
        ArrivedPassBalances(c, p.s, user, p.calls, quota - 1);
      }
    }
  }

  lemma ConnectPassBalances(c: Config, s: State, env: Surroundings)
    requires s.CountersFit(c)
    ensures Balanced(s, ConnectPass(c, s, env).s)
  {
    hide SendAll, CountAccepted;
    var s1 := s.(justConnected := false, sessionValid := s.sessionValid || env.sessionCreated);
    SendsBalance(c, s1, env.user(0, OnConnected).sends);
  }

  lemma {:induction false} WritesAcceptNothing(c: Config, s: State, front: seq<PreparedMessage> -> nat, quota: nat)
    requires s.CountersFit(c)
    ensures CountAccepted(WritePass(c, s, front, quota).log) == CountAccepted(s.log)
    decreases quota
  {
    hide StartOneWrite, Pick, CountAccepted;
    if quota > 0 && s.queue != [] {
      var next := StartOneWrite(c, s, Pick(front, s.queue));
      StartEmits(c, s, Pick(front, s.queue));
      ExtensionAcceptsNothing(s.log, StartWrite(Pick(front, s.queue)), next.log);
      WritesAcceptNothing(c, next, front, quota - 1);
    }
  }

  /** The callbacks behind the writing phase send nothing. */
  ghost predicate SilentAfterWriting(user: User) {
    forall n: nat, callback: Callback | callback.OnTimeout? || callback.OnProcessed? :: user(n, callback).sends == []
  }

  lemma SilentCall(c: Config, s: State, user: User, made: seq<Callback>, callback: Callback)
    requires s.CountersFit(c) && user(|made|, callback).sends == []
    ensures Call(c, s, user, made, callback).s == s
  {
  }

  lemma {:induction false} SilentTimeoutPass(c: Config, s: State, todo: set<nat>, elapsed: nat -> bool,
                                             user: User, made: seq<Callback>)
    requires s.CountersFit(c) && todo <= s.mesTimeouts.Keys && SilentAfterWriting(user)
    ensures var r := TimeoutPass(c, s, todo, elapsed, user, made).s;
            r.queue == s.queue && CountAccepted(r.log) == CountAccepted(s.log)
    decreases |todo|
  {
    hide Call, IsLeast;
    if todo != {} {
      var mid := LeastOf(todo);
      if !elapsed(mid) {
        SilentTimeoutPass(c, s, todo - {mid}, elapsed, user, made);
      } else {
        SilentCall(c, TimedOut(s, mid), user, made, OnTimeout(mid));
        var p := Call(c, TimedOut(s, mid), user, made, OnTimeout(mid));
        if !p.threw {
          SilentTimeoutPass(c, p.s, todo - {mid}, elapsed, user, p.calls);
        }
      }
    }
  }

  lemma FinishEmptiesQueue(c: Config, s: State, env: Surroundings, made: seq<Callback>)
    requires s.CountersFit(c) && s.delivery.None? && SilentAfterWriting(env.user)
    ensures var r := FinishProcess(c, s, env, made).s;
            CountAccepted(r.log) == CountAccepted(s.log) && (|s.queue| <= env.outgoingQuota ==> r.queue == [])
  {
    hide WritePass, TimeoutPass, Call, CountAccepted;
    var written := WritePass(c, s, env.front, env.outgoingQuota);
    WritePassEmptiesQueue(c, s, env.front, env.outgoingQuota);
    WritesAcceptNothing(c, s, env.front, env.outgoingQuota);
    var timed :=
      if c.timeoutsEnabled
      then TimeoutPass(c, written, written.mesTimeouts.Keys, env.elapsed, env.user, made)
      else Pass(written, made, false);
    if c.timeoutsEnabled {
      SilentTimeoutPass(c, written, written.mesTimeouts.Keys, env.elapsed, env.user, made);
    }
    if !timed.threw {
      var checked := ErrorPass(timed.s, timed.calls);
      SilentCall(c, checked.s, env.user, checked.calls, OnProcessed);
    }
  }

  /** What was queued before a call and what its connected, sent and arrived callbacks send
      or answer is all written by that call, if it does not throw and time allows. */
  lemma AnswersLeaveInTheSameCall(c: Config, s: State, env: Surroundings)
    requires s.CountersFit(c) && s.delivery.None? && SilentAfterWriting(env.user)
    requires var p := MtProcess(c, s, env);
             !p.threw && |s.queue| + CountAccepted(p.s.log) - CountAccepted(s.log) <= env.outgoingQuota
    ensures MtProcess(c, s, env).s.queue == []
  {
    hide ConnectPass, SentPass, ArrivedPass, FinishProcess, CountAccepted;
    var connected := ConnectPass(c, s, env);
    ConnectPassBalances(c, s, env);
    var sent := SentPass(c, connected.s, env.user, connected.calls);
    SentPassBalances(c, connected.s, env.user, connected.calls);
    var arrived :=
      if sent.s.inBuffer != [] && sent.s.sessionValid
      then ArrivedPass(c, sent.s, env.user, sent.calls, env.incomingQuota)
      else sent;
    ArrivedPassBalances(c, sent.s, env.user, sent.calls, env.incomingQuota);
    FinishEmptiesQueue(c, arrived.s, env, arrived.calls);
  }

  // ---- the first and the last callback ----------------------------------------------

  lemma {:induction false} SentPassCallsOn(c: Config, s: State, user: User, made: seq<Callback>)
    requires s.CountersFit(c)
    ensures made <= SentPass(c, s, user, made).calls
    decreases |s.sentMessages|
  {
    hide NotifyFirstSent, SendAll;
    if s.sentMessages != [] {
      var p := Call(c, NotifyFirstSent(c, s), user, made, OnSent(s.sentMessages[0].id));
      if !p.threw {
        SentPassCallsOn(c, p.s, user, p.calls);
      }
    }
  }

  lemma {:induction false} ArrivedPassCallsOn(c: Config, s: State, user: User, made: seq<Callback>, quota: nat)
    requires s.CountersFit(c) && s.delivery.None?
    ensures made <= ArrivedPass(c, s, user, made, quota).calls
    decreases quota
  {
    hide DecodeFirst, PrepareToWrite, SendAll, Taken;
    if quota > 0 && s.inBufferUpdated {
      var p := ArrivedOne(c, s, user, made);
      if !p.threw {
        ArrivedPassCallsOn(c, p.s, user, p.calls, quota - 1);
      }
    }
  }

  lemma {:induction false} TimeoutPassCallsOn(c: Config, s: State, todo: set<nat>, elapsed: nat -> bool,
                                              user: User, made: seq<Callback>)
    requires s.CountersFit(c) && todo <= s.mesTimeouts.Keys
    ensures made <= TimeoutPass(c, s, todo, elapsed, user, made).calls
    decreases |todo|
  {
    hide SendAll, IsLeast;
    if todo != {} {
      var mid := LeastOf(todo);
      if !elapsed(mid) {
        TimeoutPassCallsOn(c, s, todo - {mid}, elapsed, user, made);
      } else {
        var p := Call(c, TimedOut(s, mid), user, made, OnTimeout(mid));
        if !p.threw {
          TimeoutPassCallsOn(c, p.s, todo - {mid}, elapsed, user, p.calls);
        }
      }
    }
  }

  lemma FinishCallsOn(c: Config, s: State, env: Surroundings, made: seq<Callback>)
    requires s.CountersFit(c) && s.delivery.None?
    ensures var p := FinishProcess(c, s, env, made);
            && made <= p.calls
            && (!p.threw && s.sessionValid ==> p.calls != [] && p.calls[|p.calls| - 1] == OnProcessed)
  {
    hide WritePass, TimeoutPass, SendAll;
    var written := WritePass(c, s, env.front, env.outgoingQuota);
    if c.timeoutsEnabled {
      TimeoutPassCallsOn(c, written, written.mesTimeouts.Keys, env.elapsed, env.user, made);
    }
  }

  /** A new connection whose session can be created is announced first, whatever happens
      later, and a call that ends well with a session ends with the processed callback. */
  lemma CallsBeginAndEnd(c: Config, s: State, env: Surroundings)
    requires s.CountersFit(c) && s.delivery.None?
    ensures var p := MtProcess(c, s, env);
            && (s.justConnected && (s.sessionValid || env.sessionCreated) ==> p.calls != [] && p.calls[0] == OnConnected)
            && (!p.threw && (s.sessionValid || (s.justConnected && env.sessionCreated)) ==>
                  p.calls != [] && p.calls[|p.calls| - 1] == OnProcessed)
  {
    hide SentPass, ArrivedPass, FinishProcess, SendAll;
    var connected := ConnectPass(c, s, env);
    var sent := SentPass(c, connected.s, env.user, connected.calls);
    SentPassCallsOn(c, connected.s, env.user, connected.calls);
    var arrived :=
      if sent.s.inBuffer != [] && sent.s.sessionValid
      then ArrivedPass(c, sent.s, env.user, sent.calls, env.incomingQuota)
      else sent;
    ArrivedPassCallsOn(c, sent.s, env.user, sent.calls, env.incomingQuota);
    FinishCallsOn(c, arrived.s, env, arrived.calls);
  }
}
