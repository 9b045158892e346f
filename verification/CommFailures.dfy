/**
 When a call of mt_process throws, and what it still does in that case: the exact reasons,
 read off the callbacks, the end of the history and the errors at the start.
 */
module CommFailures {
  import opened BasicDetail
  import opened BinMessages
  import opened CommDuties
  import opened CommEffects
  import opened CommHistories
  import opened CommPasses
  import opened CommPhases
  import opened CommStates
  import opened MessageDecoder
  import opened Optional
  import opened Sets

  // ---- the reasons ------------------------------------------------------------------

  predicate LastCallThrew(user: User, calls: seq<Callback>) {
    calls != [] && user(|calls| - 1, calls[|calls| - 1]).throws
  }

  /** The latest callback was for a message, and its answer cannot be encoded. */
  predicate AnswerFailed(c: Config, user: User, calls: seq<Callback>) {
    calls != [] &&
    match calls[|calls| - 1]
    case OnArrived(m, outId) =>
      var reply := user(|calls| - 1, calls[|calls| - 1]).reply;
      reply.Some? && !(reply.value.encodes && FitsHeader(c, AnswerTo(c, Delivery(m, outId), reply.value.message)))
    case _ => false
  }

  /** The latest event is new, and it is a frame that cannot be decoded or a reply that its
      request does not allow. */
  predicate Refused(before: History, h: History) {
    h != before && h.Then? && (h.event.FrameRejected? || h.event.ReplyDisallowed?)
  }

  predicate HasReason(c: Config, user: User, before: History, h: History, calls: seq<Callback>) {
    LastCallThrew(user, calls) || AnswerFailed(c, user, calls) || Refused(before, h)
  }

  /** A phase that began without a reason throws exactly if there is one at its end. */
  predicate ThrowsForReason(c: Config, user: User, before: History, p: Pass) {
    p.threw <==> HasReason(c, user, before, p.s.log, p.calls)
  }

  function Length(h: History): nat {
    if h.Start? then 0 else 1 + Length(h.past)
  }

  lemma {:induction false} WithinIsNoLonger(before: History, h: History)
    requires Within(before, h)
    ensures Length(before) <= Length(h)
    decreases h
  {
    if before != h {
      WithinIsNoLonger(before, h.past);
    }
  }

  lemma EventIsNew(before: History, h: History, e: Event)
    requires Within(before, h)
    ensures Then(h, e) != before
  {
    WithinIsNoLonger(before, h);
  }

  // ---- the phases -------------------------------------------------------------------

  lemma PreparedRefusesNothing(c: Config, s: State, m: Message, encodes: bool, before: History)
    requires s.CountersFit(c) && !Refused(before, s.log)
    ensures !Refused(before, PrepareToWrite(c, s, m, encodes).log)
  {
    hide PrepareToWrite;
    PreparedIff(c, s, m, encodes);
  }

  lemma {:induction false} SendsRefuseNothing(c: Config, s: State, requests: seq<SendRequest>, before: History)
    requires s.CountersFit(c) && !Refused(before, s.log)
    ensures !Refused(before, SendAll(c, s, requests).log)
    decreases |requests|
  {
    hide PrepareToWrite, Refused;
    if requests != [] {
      PreparedRefusesNothing(c, s, requests[0].message, requests[0].encodes, before);
      SendsRefuseNothing(c, PrepareToWrite(c, s, requests[0].message, requests[0].encodes), requests[1..], before);
    }
  }

  lemma CallThrowsForReason(c: Config, s: State, user: User, made: seq<Callback>, callback: Callback, before: History)
    requires s.CountersFit(c) && !Refused(before, s.log) && !callback.OnArrived?
    ensures ThrowsForReason(c, user, before, Call(c, s, user, made, callback))
  {
    hide SendAll, Refused;
    SendsRefuseNothing(c, s, user(|made|, callback).sends, before);
    assert (made + [callback])[|made|] == callback;
  }

  lemma {:induction false} SentPassThrowsForReason(c: Config, s: State, user: User, made: seq<Callback>, before: History)
    requires s.CountersFit(c) && !HasReason(c, user, before, s.log, made)
    ensures ThrowsForReason(c, user, before, SentPass(c, s, user, made))
    decreases |s.sentMessages|
  {
    hide Call, HasReason;
    if s.sentMessages != [] {
      var callback := OnSent(s.sentMessages[0].id);
      CallThrowsForReason(c, NotifyFirstSent(c, s), user, made, callback, before);
      var p := Call(c, NotifyFirstSent(c, s), user, made, callback);
      if !p.threw {
        SentPassThrowsForReason(c, p.s, user, p.calls, before);
      }
    }
  }

  /** A handler with a session fails exactly if it throws or its answer cannot be encoded. */
  lemma DeliverThrowsForReason(c: Config, s: State, user: User, made: seq<Callback>, before: History)
    requires s.CountersFit(c) && s.delivery.Some? && s.sessionValid && !Refused(before, s.log)
    requires c.useUniqueMessageId ==> s.delivery.value.outId != 0
    ensures ThrowsForReason(c, user, before, Deliver(c, s, user, made))
  {
    hide SendAll, PrepareToWrite, ReplyTo, AnswerTo, Refused, FitsHeader;
    var d := s.delivery.value;
    var callback := OnArrived(d.message, d.outId);
    SendsRefuseNothing(c, s, user(|made|, callback).sends, before);
    assert (made + [callback])[|made|] == callback;
    var called := Call(c, s, user, made, callback).s;
    var reply := user(|made|, callback).reply;
    if reply.Some? {
      AnswerQueuesOrThrows(c, called, d, reply.value);
      PreparedRefusesNothing(c, called.(delivery := None), ReplyTo(c, d, reply.value.message), reply.value.encodes, before);
    }
  }

  lemma AnswerQueuesOrThrows(c: Config, s: State, d: Delivery, answer: SendRequest)
    requires s.CountersFit(c) && s.sessionValid && (c.useUniqueMessageId ==> d.outId != 0)
    ensures var idle := s.(delivery := None);
            PrepareToWrite(c, idle, ReplyTo(c, d, answer.message), answer.encodes).queue == idle.queue
            <==> !(answer.encodes && FitsHeader(c, AnswerTo(c, d, answer.message)))
  {
    hide PrepareToWrite;
    PreparedIff(c, s.(delivery := None), ReplyTo(c, d, answer.message), answer.encodes);
  }

  /** After a look at a frame: either a message is in the handler, with an id set aside, or a
      refusal is the latest event exactly if the look throws. */
  predicate Looked(c: Config, before: History, r: State, throws: bool) {
    if r.delivery.Some? then !Refused(before, r.log) && (c.useUniqueMessageId ==> r.delivery.value.outId != 0)
    else throws <==> Refused(before, r.log)
  }

  lemma ReceivedIsLooked(c: Config, s: State, m: Message, before: History)
    requires s.CountersFit(c)
    ensures Looked(c, before, ProcessReceived(c, s, m), false)
  {
  }

  lemma IncomingIsLooked(c: Config, s: State, m: Message, before: History)
    requires s.CountersFit(c) && s.delivery.None? && Within(before, s.log)
    ensures Looked(c, before, ProcessIncoming(c, s, m), Rejected(c, s, Some(Ok(m))))
  {
    hide ProcessReceived, Within;
    if !m.RidExists() {
      ReceivedIsLooked(c, s, m, before);
    } else if m.rid !in s.mesTimeouts {
    } else if c.IsAllowedReply(s.mesTimeouts[m.rid], m.name) {
      ReceivedIsLooked(c, CloseByReply(s, m), m, before);
    } else {
      EventIsNew(before, s.log, ReplyDisallowed(m.rid, s.mesTimeouts[m.rid], m.name));
    }
  }

  lemma ReactionIsLooked(c: Config, s: State, taken: Option<Result<Message>>, before: History)
    requires s.CountersFit(c) && s.delivery.None? && Within(before, s.log) && !Refused(before, s.log)
    ensures Looked(c, before, ReactTo(c, s, taken), Rejected(c, s, taken))
  {
    hide ProcessIncoming, Within;
    match taken
    case None =>
    case Some(Throws(e)) => EventIsNew(before, s.log, FrameRejected(e));
    case Some(Ok(m)) => IncomingIsLooked(c, s, m, before);
  }

  lemma ArrivedOneThrowsForReason(c: Config, s: State, user: User, made: seq<Callback>, before: History)
    requires s.CountersFit(c) && s.delivery.None? && s.sessionValid && Within(before, s.log)
    requires !HasReason(c, user, before, s.log, made)
    ensures ThrowsForReason(c, user, before, ArrivedOne(c, s, user, made))
  {
    hide Taken, AfterFirstFrame, Deliver, ReactTo, LastCallThrew, AnswerFailed, Refused, Within;
    var taken, r := Taken(c.platform, c.catalog, s.inBuffer), DecodeFirst(c, s);
    ReactionIsLooked(c, Cut(s), taken, before);
    assert Rejected(c, Cut(s), taken) == Rejected(c, s, taken);
    if r.delivery.Some? {
      DeliverThrowsForReason(c, r, user, made, before);
    }
  }

  lemma {:induction false} ArrivedPassThrowsForReason(c: Config, s: State, user: User, made: seq<Callback>,
                                                      quota: nat, before: History)
    requires s.CountersFit(c) && s.delivery.None? && s.sessionValid && Within(before, s.log)
    requires !HasReason(c, user, before, s.log, made)
    ensures ThrowsForReason(c, user, before, ArrivedPass(c, s, user, made, quota))
    decreases quota
  {
    hide ArrivedOne, HasReason, Within, Reaches;
    if quota > 0 && s.inBufferUpdated {
      var p := ArrivedOne(c, s, user, made);
      ArrivedOneThrowsForReason(c, s, user, made, before);
      if !p.threw {
        ArrivedOneReaches(c, s, user, made);
        ReachingGrows(c, s, p.s);
        WithinIsTransitive(before, s.log, p.s.log);
        ArrivedPassThrowsForReason(c, p.s, user, p.calls, quota - 1, before);
      }
    }
  }

  lemma {:induction false} WritesRefuseNothing(c: Config, s: State, front: seq<PreparedMessage> -> nat,
                                               quota: nat, before: History)
    requires s.CountersFit(c) && !Refused(before, s.log)
    ensures !Refused(before, WritePass(c, s, front, quota).log)
    decreases quota
  {
    hide StartOneWrite, Pick, Refused;
    if quota > 0 && s.queue != [] {
      StartRefusesNothing(c, s, Pick(front, s.queue), before);
      WritesRefuseNothing(c, StartOneWrite(c, s, Pick(front, s.queue)), front, quota - 1, before);
    }
  }

  lemma StartRefusesNothing(c: Config, s: State, front: nat, before: History)
    requires s.CountersFit(c) && front < |s.queue|
    ensures !Refused(before, StartOneWrite(c, s, front).log)
  {
  }

  lemma {:induction false} TimeoutPassThrowsForReason(c: Config, s: State, todo: set<nat>, elapsed: nat -> bool,
                                                      user: User, made: seq<Callback>, before: History)
    requires s.CountersFit(c) && todo <= s.mesTimeouts.Keys && !HasReason(c, user, before, s.log, made)
    ensures ThrowsForReason(c, user, before, TimeoutPass(c, s, todo, elapsed, user, made))
    decreases |todo|
  {
    hide Call, HasReason, IsLeast;
    if todo != {} {
      var mid := LeastOf(todo);
      if !elapsed(mid) {
        TimeoutPassThrowsForReason(c, s, todo - {mid}, elapsed, user, made, before);
      } else {
        CallThrowsForReason(c, TimedOut(s, mid), user, made, OnTimeout(mid), before);
        var p := Call(c, TimedOut(s, mid), user, made, OnTimeout(mid));
        if !p.threw {
          TimeoutPassThrowsForReason(c, p.s, todo - {mid}, elapsed, user, p.calls, before);
        }
      }
    }
  }

  lemma FinishThrowsIff(c: Config, s: State, env: Surroundings, made: seq<Callback>, before: History)
    requires s.CountersFit(c) && s.delivery.None? && !HasReason(c, env.user, before, s.log, made)
    ensures var p := FinishProcess(c, s, env, made);
            p.threw <==> HasReason(c, env.user, before, p.s.log, p.calls) || s.readError || s.writeError
  {
    hide WritePass, TimeoutPass, ProcessedPass, LastCallThrew, AnswerFailed, Refused;
    var written := WritePass(c, s, env.front, env.outgoingQuota);
    WritesRefuseNothing(c, s, env.front, env.outgoingQuota, before);
    var timed :=
      if c.timeoutsEnabled
      then TimeoutPass(c, written, written.mesTimeouts.Keys, env.elapsed, env.user, made)
      else Pass(written, made, false);
    if c.timeoutsEnabled {
      TimeoutPassThrowsForReason(c, written, written.mesTimeouts.Keys, env.elapsed, env.user, made, before);
    }
    EndThrowsIff(c, timed.s, env.user, timed.calls, before);
  }

  /** What is left when the timeouts are through: the errors and the last callback. */
  lemma EndThrowsIff(c: Config, s: State, user: User, made: seq<Callback>, before: History)
    requires s.CountersFit(c)
    ensures !HasReason(c, user, before, s.log, made) ==>
              var checked := ErrorPass(s, made);
              var p := if checked.threw then checked else ProcessedPass(c, checked.s, user, checked.calls);
              p.threw <==> HasReason(c, user, before, p.s.log, p.calls) || s.readError || s.writeError
  {
    hide Call, LastCallThrew, AnswerFailed, Refused;
    if !HasReason(c, user, before, s.log, made) {
      CallThrowsForReason(c, ErrorPass(s, made).s, user, made, OnProcessed, before);
    }
  }

  lemma ConnectPassThrowsIff(c: Config, s: State, env: Surroundings)
    requires s.CountersFit(c) && s.delivery.None?
    ensures var p := ConnectPass(c, s, env);
            && (p.threw <==> (s.justConnected && !s.sessionValid && !env.sessionCreated)
                             || HasReason(c, env.user, s.log, p.s.log, p.calls))
            && Within(s.log, p.s.log)
  {
    hide Call, Within, Reaches;
    ConnectPassReaches(c, s, env);
    ReachingGrows(c, s, ConnectPass(c, s, env).s);
    var s1 := s.(justConnected := false, sessionValid := s.sessionValid || env.sessionCreated);
    CallThrowsForReason(c, s1, env.user, [], OnConnected, s.log);
  }

  /** A call throws exactly if the session cannot be created, its last callback threw, the
      answer to its last message cannot be encoded, the last thing that happened is a frame
      or reply that is refused, or the channel had an error when it began. */
  lemma MtProcessThrowsIff(c: Config, s: State, env: Surroundings)
    requires s.CountersFit(c) && s.delivery.None?
    ensures var p := MtProcess(c, s, env);
            p.threw <==> (s.justConnected && !s.sessionValid && !env.sessionCreated)
                         || HasReason(c, env.user, s.log, p.s.log, p.calls)
                         || s.readError || s.writeError
  {
    hide ConnectPass, SentPass, ArrivedPass, FinishProcess, Within, HasReason, Reaches;
    var connected := ConnectPass(c, s, env);
    ConnectPassThrowsIff(c, s, env);
    if !connected.threw {
      var sent := SentPass(c, connected.s, env.user, connected.calls);
      SentPassThrowsForReason(c, connected.s, env.user, connected.calls, s.log);
      SentPassReaches(c, connected.s, env.user, connected.calls);
      ReachingGrows(c, connected.s, sent.s);
      WithinIsTransitive(s.log, connected.s.log, sent.s.log);
      if !sent.threw {
        var arrived :=
          if sent.s.inBuffer != [] && sent.s.sessionValid
          then ArrivedPass(c, sent.s, env.user, sent.calls, env.incomingQuota)
          else sent;
        if sent.s.inBuffer != [] && sent.s.sessionValid {
          ArrivedPassThrowsForReason(c, sent.s, env.user, sent.calls, env.incomingQuota, s.log);
        }
        if !arrived.threw {
          FinishThrowsIff(c, arrived.s, env, arrived.calls, s.log);
        }
      }
    }
  }

  // ---- errors come last -------------------------------------------------------------

  predicate NoneElapsed(open: map<nat, Name>, elapsed: nat -> bool) {
    forall k | k in open :: !elapsed(k)
  }

  /** No error and no elapsed request is left, and the earlier phases' work is not touched. */
  predicate IsFinished(c: Config, s: State, r: State, env: Surroundings) {
    && !r.readError && !r.writeError
    && r.sentMessages == s.sentMessages && r.justConnected == s.justConnected
    && r.sessionValid == s.sessionValid && r.inBuffer == s.inBuffer
    && (c.timeoutsEnabled ==> NoneElapsed(r.mesTimeouts, env.elapsed))
  }

  /** The errors and the last callback, behind timeouts that have finished. */
  lemma EndIsFinished(c: Config, s: State, timed: Pass, env: Surroundings)
    requires timed.s.CountersFit(c) && IsFinished(c, s, timed.s.(readError := false, writeError := false), env)
    ensures var checked := ErrorPass(timed.s, timed.calls);
            var p := if checked.threw then checked else ProcessedPass(c, checked.s, env.user, checked.calls);
            IsFinished(c, s, p.s, env)
  {
    hide ProcessedPass, NoneElapsed;
  }

  lemma FinishWithoutReason(c: Config, s: State, env: Surroundings, made: seq<Callback>, before: History)
    requires s.CountersFit(c) && s.delivery.None? && !HasReason(c, env.user, before, s.log, made)
    requires var p := FinishProcess(c, s, env, made); !HasReason(c, env.user, before, p.s.log, p.calls)
    ensures IsFinished(c, s, FinishProcess(c, s, env, made).s, env)
  {
    hide WritePass, TimeoutPass, ErrorPass, ProcessedPass, HasReason, NoneElapsed;
    var written := WritePass(c, s, env.front, env.outgoingQuota);
    WritesKeepReasons(c, s, env, made, before);
    var timed :=
      if c.timeoutsEnabled
      then TimeoutPass(c, written, written.mesTimeouts.Keys, env.elapsed, env.user, made)
      else Pass(written, made, false);
    if c.timeoutsEnabled {
      TimeoutsWithoutReason(c, written, env, made, before);
    }
    assert !timed.threw;
    assert IsFinished(c, s, timed.s.(readError := false, writeError := false), env);
    EndIsFinished(c, s, timed, env);
  }

  lemma TimeoutsWithoutReason(c: Config, s: State, env: Surroundings, made: seq<Callback>, before: History)
    requires s.CountersFit(c) && !HasReason(c, env.user, before, s.log, made)
    ensures var p := TimeoutPass(c, s, s.mesTimeouts.Keys, env.elapsed, env.user, made);
            && ThrowsForReason(c, env.user, before, p)
            && (!p.threw ==> NoneElapsed(p.s.mesTimeouts, env.elapsed))
  {
    hide TimeoutPass, ClosesInOrder, ClosesAll, HasReason;
    var todo := s.mesTimeouts.Keys;
    var p := TimeoutPass(c, s, todo, env.elapsed, env.user, made);
    TimeoutPassThrowsForReason(c, s, todo, env.elapsed, env.user, made, before);
    TimeoutPassClosesElapsed(c, s, todo, env.elapsed, env.user, made);
    if !p.threw {
      RestHasNotElapsed(s.mesTimeouts, p.s.mesTimeouts, env.elapsed);
    }
  }

  lemma WritesKeepReasons(c: Config, s: State, env: Surroundings, made: seq<Callback>, before: History)
    requires s.CountersFit(c) && !HasReason(c, env.user, before, s.log, made)
    ensures !HasReason(c, env.user, before, WritePass(c, s, env.front, env.outgoingQuota).log, made)
  {
    hide WritePass, Refused, AnswerFailed;
    WritesRefuseNothing(c, s, env.front, env.outgoingQuota, before);
  }

  /** A call that throws for no reason but an error of the channel has done all its work
      before: no finished write is untold, no elapsed request open, no error left, and, if
      time allowed it, no frame undecoded. */
  lemma ErrorsComeLast(c: Config, s: State, env: Surroundings)
    requires s.CountersFit(c) && s.delivery.None? && (s.justConnected ==> s.sessionValid || env.sessionCreated)
    requires var p := MtProcess(c, s, env); !HasReason(c, env.user, s.log, p.s.log, p.calls)
    ensures var r := MtProcess(c, s, env).s;
            && r.sentMessages == [] && !r.justConnected && !r.readError && !r.writeError
            && (c.timeoutsEnabled ==> NoneElapsed(r.mesTimeouts, env.elapsed))
            && (r.sessionValid && s.inBufferUpdated && env.incomingQuota > CountEnds(s.inBuffer) ==>
                  r.inBuffer == Rest(s.inBuffer))
  {
    hide ConnectPass, SentPass, ArrivedPass, FinishProcess, Within, HasReason, Reaches, SentCallbacks;
    var connected := ConnectPass(c, s, env);
    ConnectPassThrowsIff(c, s, env);
    var sent := SentPass(c, connected.s, env.user, connected.calls);
    SentPassTellsPrefix(c, connected.s, env.user, connected.calls);
    if !connected.threw {
      SentPassThrowsForReason(c, connected.s, env.user, connected.calls, s.log);
      SentPassReaches(c, connected.s, env.user, connected.calls);
      ReachingGrows(c, connected.s, sent.s);
      WithinIsTransitive(s.log, connected.s.log, sent.s.log);
      if sent.s.inBuffer != [] && sent.s.sessionValid {
        var arrived := ArrivedPass(c, sent.s, env.user, sent.calls, env.incomingQuota);
        ArrivedPassThrowsForReason(c, sent.s, env.user, sent.calls, env.incomingQuota, s.log);
        if s.inBufferUpdated {
          ArrivedPassDrainsBuffer(c, sent.s, env.user, sent.calls, env.incomingQuota);
        }
        FinishWithoutReason(c, arrived.s, env, arrived.calls, s.log);
      } else {
        FinishWithoutReason(c, sent.s, env, sent.calls, s.log);
      }
    }
  }
}
