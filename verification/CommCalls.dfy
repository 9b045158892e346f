/**
 What a whole call of mt_process does for its user: which callbacks it makes and in what
 order, when it throws, and that what has arrived and what is answered is dealt with in the
 same call.
 */
module CommCalls {
  import opened BasicDetail
  import opened BinMessages
  import opened CommEffects
  import opened CommHistories
  import opened CommPasses
  import opened CommPhases
  import opened CommStates
  import opened MessageDecoder
  import opened Optional
  import opened Sequences
  import opened Sets

  // ---- callbacks and the history ----------------------------------------------------

  /** What the history and the callbacks have in common. */
  datatype Notice = Sent(mid: nat) | Arrived(message: Message) | Elapsed(mid: nat)

  function NoticesIn(h: History): seq<Notice> {
    match h
    case Start => []
    case Then(past, SentCallback(info)) => NoticesIn(past) + [Notice.Sent(info.id)]
    case Then(past, ArrivedCallback(m)) => NoticesIn(past) + [Arrived(m)]
    case Then(past, TimeoutCallback(mid)) => NoticesIn(past) + [Elapsed(mid)]
    case Then(past, _) => NoticesIn(past)
  }

  function Heard(callback: Callback): seq<Notice> {
    match callback
    case OnSent(mid) => [Notice.Sent(mid)]
    case OnArrived(m, _) => [Arrived(m)]
    case OnTimeout(mid) => [Elapsed(mid)]
    case _ => []
  }

  function HeardIn(calls: seq<Callback>): seq<Notice> {
    if calls == [] then [] else HeardIn(calls[..|calls| - 1]) + Heard(calls[|calls| - 1])
  }

  /** The user has heard exactly what the history says, after `base`. */
  predicate Told(base: seq<Notice>, h: History, calls: seq<Callback>) {
    NoticesIn(h) == base + HeardIn(calls)
  }

  lemma ToldOneMore(base: seq<Notice>, h: History, h': History, calls: seq<Callback>, callback: Callback)
    requires Told(base, h, calls) && NoticesIn(h') == NoticesIn(h) + Heard(callback)
    ensures Told(base, h', calls + [callback])
  {
    assert (calls + [callback])[..|calls|] == calls;
    Associative(base, HeardIn(calls), Heard(callback));
  }

  lemma PreparedIsUnheard(c: Config, s: State, m: Message, encodes: bool)
    requires s.CountersFit(c)
    ensures NoticesIn(PrepareToWrite(c, s, m, encodes).log) == NoticesIn(s.log)
  {
    PreparedIff(c, s, m, encodes);
  }

  lemma {:induction false} SendsAreUnheard(c: Config, s: State, requests: seq<SendRequest>)
    requires s.CountersFit(c)
    ensures NoticesIn(SendAll(c, s, requests).log) == NoticesIn(s.log)
    decreases |requests|
  {
    hide PrepareToWrite, NoticesIn;
    if requests != [] {
      PreparedIsUnheard(c, s, requests[0].message, requests[0].encodes);
      SendsAreUnheard(c, PrepareToWrite(c, s, requests[0].message, requests[0].encodes), requests[1..]);
    }
  }

  lemma CallIsTold(c: Config, s: State, user: User, made: seq<Callback>, callback: Callback,
                   base: seq<Notice>, before: History)
    requires s.CountersFit(c) && Told(base, before, made) && NoticesIn(s.log) == NoticesIn(before) + Heard(callback)
    ensures var p := Call(c, s, user, made, callback); Told(base, p.s.log, p.calls)
  {
    SendsAreUnheard(c, s, user(|made|, callback).sends);
    ToldOneMore(base, before, SendAll(c, s, user(|made|, callback).sends).log, made, callback);
  }

  lemma {:induction false} SentPassIsTold(c: Config, s: State, user: User, made: seq<Callback>, base: seq<Notice>)
    requires s.CountersFit(c) && Told(base, s.log, made)
    ensures var p := SentPass(c, s, user, made); Told(base, p.s.log, p.calls)
    decreases |s.sentMessages|
  {
    hide Call, Told, NoticesIn;
    if s.sentMessages != [] {
      var callback := OnSent(s.sentMessages[0].id);
      NotifyIsHeard(c, s);
      CallIsTold(c, NotifyFirstSent(c, s), user, made, callback, base, s.log);
      var p := Call(c, NotifyFirstSent(c, s), user, made, callback);
      if !p.threw {
        SentPassIsTold(c, p.s, user, p.calls, base);
      }
    }
  }

  lemma NotifyIsHeard(c: Config, s: State)
    requires s.sentMessages != []
    ensures NoticesIn(NotifyFirstSent(c, s).log) == NoticesIn(s.log) + [Notice.Sent(s.sentMessages[0].id)]
  {
  }

  /** A message that is put into the handler is recorded, and nothing else is heard of. */
  predicate HearsDelivery(s: State, r: State) {
    NoticesIn(r.log) == NoticesIn(s.log) + if r.delivery.Some? then [Arrived(r.delivery.value.message)] else []
  }

  lemma UnheardEvent(s: State, r: State, e: Event)
    requires r.log == Then(s.log, e) && r.delivery.None?
    requires !e.SentCallback? && !e.ArrivedCallback? && !e.TimeoutCallback?
    ensures HearsDelivery(s, r)
  {
  }

  lemma ReceivedIsHeard(c: Config, s: State, m: Message)
    requires s.CountersFit(c)
    ensures HearsDelivery(s, ProcessReceived(c, s, m))
  {
    hide TakeMid;
  }

  lemma IncomingIsHeard(c: Config, s: State, m: Message)
    requires s.CountersFit(c) && s.delivery.None?
    ensures HearsDelivery(s, ProcessIncoming(c, s, m))
  {
    hide ProcessReceived, NoticesIn;
    var r := ProcessIncoming(c, s, m);
    if !m.RidExists() {
      ReceivedIsHeard(c, s, m);
    } else if m.rid !in s.mesTimeouts {
      UnheardEvent(s, r, ReplyUnregistered(m.rid));
    } else if !c.IsAllowedReply(s.mesTimeouts[m.rid], m.name) {
      UnheardEvent(s, r, ReplyDisallowed(m.rid, s.mesTimeouts[m.rid], m.name));
    } else {
      var closed := CloseByReply(s, m);
      ReceivedIsHeard(c, closed, m);
      UnheardEvent(s, closed, ReplyClosed(m.rid, s.mesTimeouts[m.rid], m.name));
      assert NoticesIn(s.log) + [] == NoticesIn(s.log);
    }
  }

  lemma ReactionIsHeard(c: Config, s: State, taken: Option<Result<Message>>)
    requires s.CountersFit(c) && s.delivery.None?
    ensures HearsDelivery(s, ReactTo(c, s, taken))
  {
    hide ProcessIncoming, NoticesIn;
    match taken
    case None => assert NoticesIn(s.log) + [] == NoticesIn(s.log);
    case Some(Ok(m)) => IncomingIsHeard(c, s, m);
    case Some(Throws(e)) => UnheardEvent(s, ReactTo(c, s, taken), FrameRejected(e));
  }

  lemma DecodeIsHeard(c: Config, s: State)
    requires s.CountersFit(c) && s.delivery.None?
    ensures HearsDelivery(s, DecodeFirst(c, s))
  {
    hide ReactTo, Taken, AfterFirstFrame, NoticesIn;
    ReactionIsHeard(c, Cut(s), Taken(c.platform, c.catalog, s.inBuffer));
  }

  lemma DeliveryIsTold(c: Config, s: State, user: User, made: seq<Callback>, base: seq<Notice>, before: History)
    requires s.CountersFit(c) && s.delivery.Some? && Told(base, before, made)
    requires NoticesIn(s.log) == NoticesIn(before) + [Arrived(s.delivery.value.message)]
    ensures var p := Deliver(c, s, user, made); Told(base, p.s.log, p.calls)
  {
    hide Call, NoticesIn, Told, PrepareToWrite, ReplyTo;
    var d := s.delivery.value;
    var callback := OnArrived(d.message, d.outId);
    CallIsTold(c, s, user, made, callback, base, before);
    var idle := Call(c, s, user, made, callback).s.(delivery := None);
    var reply := user(|made|, callback).reply;
    if reply.Some? {
      PreparedIsUnheard(c, idle, ReplyTo(c, d, reply.value.message), reply.value.encodes);
    }
    ToldStays(base, idle.log, Deliver(c, s, user, made).s.log, made + [callback]);
  }

  lemma ToldStays(base: seq<Notice>, h: History, h': History, calls: seq<Callback>)
    requires Told(base, h, calls) && NoticesIn(h') == NoticesIn(h)
    ensures Told(base, h', calls)
  {
  }

  lemma ArrivedOneIsTold(c: Config, s: State, user: User, made: seq<Callback>, base: seq<Notice>)
    requires s.CountersFit(c) && s.delivery.None? && Told(base, s.log, made)
    ensures var p := ArrivedOne(c, s, user, made); Told(base, p.s.log, p.calls)
  {
    hide DecodeFirst, Deliver, NoticesIn, Taken;
    var r := DecodeFirst(c, s);
    DecodeIsHeard(c, s);
    if r.delivery.Some? {
      DeliveryIsTold(c, r, user, made, base, s.log);
    } else {
      assert NoticesIn(s.log) + [] == NoticesIn(s.log);
    }
  }

  lemma {:induction false} ArrivedPassIsTold(c: Config, s: State, user: User, made: seq<Callback>, quota: nat,
                                             base: seq<Notice>)
    requires s.CountersFit(c) && s.delivery.None? && Told(base, s.log, made)
    ensures var p := ArrivedPass(c, s, user, made, quota); Told(base, p.s.log, p.calls)
    decreases quota
  {
    hide ArrivedOne, Told;
    if quota > 0 && s.inBufferUpdated {
      ArrivedOneIsTold(c, s, user, made, base);
      var p := ArrivedOne(c, s, user, made);
      if !p.threw {
        ArrivedPassIsTold(c, p.s, user, p.calls, quota - 1, base);
      }
    }
  }

  lemma {:induction false} TimeoutPassIsTold(c: Config, s: State, todo: set<nat>, elapsed: nat -> bool,
                                             user: User, made: seq<Callback>, base: seq<Notice>)
    requires s.CountersFit(c) && todo <= s.mesTimeouts.Keys && Told(base, s.log, made)
    ensures var p := TimeoutPass(c, s, todo, elapsed, user, made); Told(base, p.s.log, p.calls)
    decreases |todo|
  {
    hide Call, Told, IsLeast;
    if todo != {} {
      var mid := LeastOf(todo);
      if !elapsed(mid) {
        TimeoutPassIsTold(c, s, todo - {mid}, elapsed, user, made, base);
      } else {
        CallIsTold(c, TimedOut(s, mid), user, made, OnTimeout(mid), base, s.log);
        var p := Call(c, TimedOut(s, mid), user, made, OnTimeout(mid));
        if !p.threw {
          TimeoutPassIsTold(c, p.s, todo - {mid}, elapsed, user, p.calls, base);
        }
      }
    }
  }

  lemma {:induction false} WritesAreUnheard(c: Config, s: State, front: seq<PreparedMessage> -> nat, quota: nat)
    requires s.CountersFit(c)
    ensures NoticesIn(WritePass(c, s, front, quota).log) == NoticesIn(s.log)
    decreases quota
  {
    hide StartOneWrite, Pick, NoticesIn;
    if quota > 0 && s.queue != [] {
      StartIsUnheard(c, s, Pick(front, s.queue));
      WritesAreUnheard(c, StartOneWrite(c, s, Pick(front, s.queue)), front, quota - 1);
    }
  }

  lemma StartIsUnheard(c: Config, s: State, front: nat)
    requires s.CountersFit(c) && front < |s.queue|
    ensures NoticesIn(StartOneWrite(c, s, front).log) == NoticesIn(s.log)
  {
  }

  lemma FinishIsTold(c: Config, s: State, env: Surroundings, made: seq<Callback>, base: seq<Notice>)
    requires s.CountersFit(c) && s.delivery.None? && Told(base, s.log, made)
    ensures var p := FinishProcess(c, s, env, made); Told(base, p.s.log, p.calls)
  {
    hide WritePass, TimeoutPass, Call, NoticesIn, HeardIn;
    var written := WritePass(c, s, env.front, env.outgoingQuota);
    WritesAreUnheard(c, s, env.front, env.outgoingQuota);
    var timed :=
      if c.timeoutsEnabled
      then TimeoutPass(c, written, written.mesTimeouts.Keys, env.elapsed, env.user, made)
      else Pass(written, made, false);
    if c.timeoutsEnabled {
      TimeoutPassIsTold(c, written, written.mesTimeouts.Keys, env.elapsed, env.user, made, base);
    }
    if !timed.threw {
      var checked := ErrorPass(timed.s, timed.calls);
      if !checked.threw && checked.s.sessionValid {
        assert NoticesIn(checked.s.log) + [] == NoticesIn(checked.s.log);
        CallIsTold(c, checked.s, env.user, checked.calls, OnProcessed, base, checked.s.log);
      }
    }
  }

  lemma ConnectPassIsTold(c: Config, s: State, env: Surroundings, base: seq<Notice>)
    requires s.CountersFit(c) && Told(base, s.log, [])
    ensures var p := ConnectPass(c, s, env); Told(base, p.s.log, p.calls)
  {
    hide Call, NoticesIn;
    if s.justConnected {
      assert NoticesIn(s.log) + [] == NoticesIn(s.log);
      CallIsTold(c, s.(justConnected := false, sessionValid := s.sessionValid || env.sessionCreated), env.user, [],
                 OnConnected, base, s.log);
    }
  }

  /** The user is told exactly what the history says, in its order, and about the very
      messages and ids: nothing is recorded that was not told, and nothing told twice. */
  lemma CallbacksAreTheHistory(c: Config, s: State, env: Surroundings)
    requires s.CountersFit(c) && s.delivery.None?
    ensures var p := MtProcess(c, s, env); NoticesIn(p.s.log) == NoticesIn(s.log) + HeardIn(p.calls)
  {
    hide ConnectPass, SentPass, ArrivedPass, FinishProcess, NoticesIn;
    var base := NoticesIn(s.log);
    assert Told(base, s.log, []);
    var connected := ConnectPass(c, s, env);
    ConnectPassIsTold(c, s, env, base);
    if !connected.threw {
      var sent := SentPass(c, connected.s, env.user, connected.calls);
      SentPassIsTold(c, connected.s, env.user, connected.calls, base);
      if !sent.threw {
        var arrived :=
          if sent.s.inBuffer != [] && sent.s.sessionValid
          then ArrivedPass(c, sent.s, env.user, sent.calls, env.incomingQuota)
          else sent;
        if sent.s.inBuffer != [] && sent.s.sessionValid {
          ArrivedPassIsTold(c, sent.s, env.user, sent.calls, env.incomingQuota, base);
        }
        if !arrived.threw {
          FinishIsTold(c, arrived.s, env, arrived.calls, base);
        }
      }
    }
  }

  // ---- the order of the phases ------------------------------------------------------

  function Rank(callback: Callback): nat {
    match callback
    case OnConnected => 0
    case OnSent(_) => 1
    case OnArrived(_, _) => 2
    case OnTimeout(_) => 3
    case OnProcessed => 4
  }

  ghost predicate InOrder(calls: seq<Callback>) {
    forall i, j | 0 <= i < j < |calls| :: Rank(calls[i]) <= Rank(calls[j])
  }

  ghost predicate UpTo(calls: seq<Callback>, rank: nat) {
    forall i | 0 <= i < |calls| :: Rank(calls[i]) <= rank
  }

  /** The callbacks so far are in order, and none is of a later phase. */
  ghost predicate Phased(calls: seq<Callback>, rank: nat) {
    InOrder(calls) && UpTo(calls, rank)
  }

  lemma PhasedOneMore(calls: seq<Callback>, callback: Callback)
    requires Phased(calls, Rank(callback))
    ensures Phased(calls + [callback], Rank(callback))
  {
  }

  lemma LaterPhase(calls: seq<Callback>, rank: nat, later: nat)
    requires Phased(calls, rank) && rank <= later
    ensures Phased(calls, later)
  {
  }

  lemma {:induction false} SentPassIsPhased(c: Config, s: State, user: User, made: seq<Callback>)
    requires s.CountersFit(c) && Phased(made, 1)
    ensures Phased(SentPass(c, s, user, made).calls, 1)
    decreases |s.sentMessages|
  {
    hide Phased, NotifyFirstSent, SendAll;
    if s.sentMessages != [] {
      var callback := OnSent(s.sentMessages[0].id);
      PhasedOneMore(made, callback);
      var p := Call(c, NotifyFirstSent(c, s), user, made, callback);
      if !p.threw {
        SentPassIsPhased(c, p.s, user, p.calls);
      }
    }
  }

  lemma {:induction false} ArrivedPassIsPhased(c: Config, s: State, user: User, made: seq<Callback>, quota: nat)
    requires s.CountersFit(c) && s.delivery.None? && Phased(made, 2)
    ensures Phased(ArrivedPass(c, s, user, made, quota).calls, 2)
    decreases quota
  {
    hide Phased, DecodeFirst, PrepareToWrite, SendAll, Taken;
    if quota > 0 && s.inBufferUpdated {
      var r, p := DecodeFirst(c, s), ArrivedOne(c, s, user, made);
      if r.delivery.Some? {
        PhasedOneMore(made, OnArrived(r.delivery.value.message, r.delivery.value.outId));
      }
      if !p.threw {
        ArrivedPassIsPhased(c, p.s, user, p.calls, quota - 1);
      }
    }
  }

  lemma {:induction false} TimeoutPassIsPhased(c: Config, s: State, todo: set<nat>, elapsed: nat -> bool,
                                               user: User, made: seq<Callback>)
    requires s.CountersFit(c) && todo <= s.mesTimeouts.Keys && Phased(made, 3)
    ensures Phased(TimeoutPass(c, s, todo, elapsed, user, made).calls, 3)
    decreases |todo|
  {
    hide Phased, SendAll, IsLeast;
    if todo != {} {
      var mid := LeastOf(todo);
      if !elapsed(mid) {
        TimeoutPassIsPhased(c, s, todo - {mid}, elapsed, user, made);
      } else {
        PhasedOneMore(made, OnTimeout(mid));
        var p := Call(c, TimedOut(s, mid), user, made, OnTimeout(mid));
        if !p.threw {
          TimeoutPassIsPhased(c, p.s, todo - {mid}, elapsed, user, p.calls);
        }
      }
    }
  }

  lemma FinishIsPhased(c: Config, s: State, env: Surroundings, made: seq<Callback>)
    requires s.CountersFit(c) && s.delivery.None? && Phased(made, 2)
    ensures var p := FinishProcess(c, s, env, made);
            InOrder(p.calls) && (s.readError || s.writeError ==> UpTo(p.calls, 3))
  {
    hide WritePass, TimeoutPass, SendAll, InOrder, UpTo;
    var written := WritePass(c, s, env.front, env.outgoingQuota);
    LaterPhase(made, 2, 3);
    var timed :=
      if c.timeoutsEnabled
      then TimeoutPass(c, written, written.mesTimeouts.Keys, env.elapsed, env.user, made)
      else Pass(written, made, false);
    if c.timeoutsEnabled {
      TimeoutPassIsPhased(c, written, written.mesTimeouts.Keys, env.elapsed, env.user, made);
    }
    LaterPhase(timed.calls, 3, 4);
    PhasedOneMore(timed.calls, OnProcessed);
  }

  /** The connected callback comes first, then those for sent messages, then those for
      arrived ones, then the timeouts, and the processed callback last; it is not made when
      the channel had an error. */
  lemma CallbacksComeInPhases(c: Config, s: State, env: Surroundings)
    requires s.CountersFit(c) && s.delivery.None?
    ensures var p := MtProcess(c, s, env);
            InOrder(p.calls) && (s.readError || s.writeError ==> forall i | 0 <= i < |p.calls| :: p.calls[i] != OnProcessed)
  {
    hide SentPass, ArrivedPass, FinishProcess, SendAll, InOrder, UpTo;
    assert Phased([], 0) && Phased([OnConnected], 0) by { NoneOrOneIsPhased(); }
    assert [] + [OnConnected] == [OnConnected];
    var connected := ConnectPass(c, s, env);
    LaterPhase(connected.calls, 0, 1);
    NotProcessedYet(MtProcess(c, s, env).calls);
    LaterPhase(connected.calls, 1, 3);
    if !connected.threw {
      var sent := SentPass(c, connected.s, env.user, connected.calls);
      SentPassIsPhased(c, connected.s, env.user, connected.calls);
      LaterPhase(sent.calls, 1, 2);
      LaterPhase(sent.calls, 2, 3);
      if !sent.threw {
        var arrived :=
          if sent.s.inBuffer != [] && sent.s.sessionValid
          then ArrivedPass(c, sent.s, env.user, sent.calls, env.incomingQuota)
          else sent;
        if sent.s.inBuffer != [] && sent.s.sessionValid {
          ArrivedPassIsPhased(c, sent.s, env.user, sent.calls, env.incomingQuota);
        }
        LaterPhase(arrived.calls, 2, 3);
        if !arrived.threw {
          FinishIsPhased(c, arrived.s, env, arrived.calls);
        }
      }
    }
  }

  lemma NothingIsCalled(h: History)
    ensures InOrder([]) && NoticesIn(h) == NoticesIn(h) + HeardIn([])
  {
  }

  lemma NotProcessedYet(calls: seq<Callback>)
    ensures UpTo(calls, 3) ==> forall i | 0 <= i < |calls| :: calls[i] != OnProcessed
  {
    if UpTo(calls, 3) {
      forall i | 0 <= i < |calls|
        ensures calls[i] != OnProcessed
      {
        assert Rank(calls[i]) <= 3;
      }
    }
  }

  lemma NoneOrOneIsPhased()
    ensures Phased([], 0) && Phased([OnConnected], 0)
  {
  }
}
