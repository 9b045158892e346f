/**
 What one call of mt_process is certain to have done: replies to requests whose write has
 been completed are delivered, answers are written, and exceptions have a reason.
 */
module CommDuties {
  import opened BasicDetail
  import opened BinMessages
  import opened CommEffects
  import opened CommHistories
  import opened CommPasses
  import opened CommPhases
  import opened CommStates
  import opened MessageDecoder
  import opened Optional
  import opened Sequences
  import opened Sets

  // ---- histories only grow ----------------------------------------------------------

  lemma {:induction false} WithinIsTransitive(a: History, b: History, c: History)
    requires Within(a, b) && Within(b, c)
    ensures Within(a, c)
    decreases c
  {
    if b != c {
      WithinIsTransitive(a, b, c.past);
    }
  }

  lemma ExtensionGrows(before: History, step: Step, after: History)
    requires Extends(before, step, after)
    ensures Within(before, after)
  {
    if after != before {
      assert Within(before, before);
      if after.past != before {
        assert Within(before, after.past);
      }
    }
  }

  lemma {:induction false} RunGrows(c: Config, s: State, steps: seq<Step>)
    requires s.CountersFit(c) && ValidRun(c, s, steps)
    ensures Within(s.log, Run(c, s, steps).log)
    decreases |steps|
  {
    hide Apply, Enabled, Within;
    if steps == [] {
      assert Within(s.log, s.log) by { WithinItself(s.log); }
    } else {
      var next := Apply(c, s, steps[0]);
      StepEmits(c, s, steps[0]);
      ExtensionGrows(s.log, steps[0], next.log);
      RunGrows(c, next, steps[1..]);
      WithinIsTransitive(s.log, next.log, Run(c, s, steps).log);
    }
  }

  lemma WithinItself(h: History)
    ensures Within(h, h)
  {
  }

  lemma ReachingGrows(c: Config, s: State, r: State)
    requires s.CountersFit(c) && Reaches(c, s, r)
    ensures Within(s.log, r.log)
  {
    var steps: seq<Step> :| ValidRun(c, s, steps) && Run(c, s, steps) == r;
    RunGrows(c, s, steps);
  }

  // ---- requests are open before their replies are looked at -------------------------

  /** The open requests when the user was told about these writes. */
  function OpenedBy(c: Config, open: map<nat, Name>, sent: seq<SentMessageInfo>): map<nat, Name>
    decreases |sent|
  {
    if sent == [] then open
    else OpenedBy(c, if AwaitsReply(c, sent[0].name) then open[sent[0].id := sent[0].name] else open, sent[1..])
  }

  predicate Asks(c: Config, info: SentMessageInfo, id: nat) {
    info.id == id && AwaitsReply(c, info.name)
  }

  ghost predicate SomeAsk(c: Config, sent: seq<SentMessageInfo>, id: nat) {
    exists i :: 0 <= i < |sent| && Asks(c, sent[i], id)
  }

  ghost predicate AllAllow(c: Config, sent: seq<SentMessageInfo>, id: nat, reply: Name) {
    forall i | 0 <= i < |sent| && Asks(c, sent[i], id) :: Allows(c, sent[i].name, reply)
  }

  predicate OpenFor(c: Config, open: map<nat, Name>, id: nat, reply: Name) {
    id in open && Allows(c, open[id], reply)
  }

  lemma {:induction false} OpenedByHas(c: Config, open: map<nat, Name>, sent: seq<SentMessageInfo>, id: nat, reply: Name)
    requires AllAllow(c, sent, id, reply) && (SomeAsk(c, sent, id) || OpenFor(c, open, id, reply))
    ensures OpenFor(c, OpenedBy(c, open, sent), id, reply)
    decreases |sent|
  {
    hide Allows, AwaitsReply;
    if sent != [] {
      var next := if AwaitsReply(c, sent[0].name) then open[sent[0].id := sent[0].name] else open;
      assert AllAllow(c, sent[1..], id, reply);
      if Asks(c, sent[0], id) {
        assert OpenFor(c, next, id, reply);
      } else if SomeAsk(c, sent, id) {
        var i :| 0 <= i < |sent| && Asks(c, sent[i], id);
        assert Asks(c, sent[1..][i - 1], id);
      }
      OpenedByHas(c, next, sent[1..], id, reply);
    }
  }

  /** Entries that do not ask leave the request alone. */
  lemma {:induction false} OpenedByKeeps(c: Config, open: map<nat, Name>, sent: seq<SentMessageInfo>, id: nat)
    requires !SomeAsk(c, sent, id) && id in open
    ensures id in OpenedBy(c, open, sent) && OpenedBy(c, open, sent)[id] == open[id]
    decreases |sent|
  {
    if sent != [] {
      assert !Asks(c, sent[0], id);
      forall i | 0 <= i < |sent[1..]|
        ensures !Asks(c, sent[1..][i], id)
      {
        assert !Asks(c, sent[i + 1], id);
      }
      OpenedByKeeps(c, if AwaitsReply(c, sent[0].name) then open[sent[0].id := sent[0].name] else open, sent[1..], id);
    }
  }

  /** The request was opened, or opened again, between the two histories. */
  ghost predicate OpenedBetween(before: History, after: History, id: nat, name: Name) {
    exists h: History :: JustOpened(h, id, name) && Within(before, h.past) && Within(h, after)
  }

  lemma OneNotification(c: Config, s: State, user: User, made: seq<Callback>)
    requires s.CountersFit(c) && s.delivery.None? && s.sentMessages != []
    ensures var r, info := Call(c, NotifyFirstSent(c, s), user, made, OnSent(s.sentMessages[0].id)).s, s.sentMessages[0];
            && r.sentMessages == s.sentMessages[1..] && Within(s.log, r.log)
            && r.mesTimeouts == (if AwaitsReply(c, info.name) then s.mesTimeouts[info.id := info.name] else s.mesTimeouts)
            && (AwaitsReply(c, info.name) ==> OpenedBetween(s.log, r.log, info.id, info.name))
  {
    hide PrepareToWrite, SendAll;
    var info, s1 := s.sentMessages[0], NotifyFirstSent(c, s);
    var r := Call(c, s1, user, made, OnSent(info.id)).s;
    SendAllReaches(c, s1, user(|made|, OnSent(info.id)).sends);
    ReachingGrows(c, s1, r);
    if AwaitsReply(c, info.name) {
      var registered := RegMessageTimeout(s, info.id, info.name).log;
      assert JustOpened(registered, info.id, info.name) && Within(s.log, registered.past);
      WithinItself(s.log);
      WithinItself(registered);
      assert registered.past == s.log && Within(s.log, registered);
      assert s1.log.past == registered && Within(registered, s1.log);
      WithinIsTransitive(s.log, registered, s1.log);
      WithinIsTransitive(registered, s1.log, r.log);
    }
    WithinIsTransitive(s.log, s1.log, r.log);
  }

  /** The sent phase opens the requests of exactly those entries that it tells. */
  lemma {:induction false} SentPassOpens(c: Config, s: State, user: User, made: seq<Callback>)
    requires s.CountersFit(c) && s.delivery.None?
    ensures var p := SentPass(c, s, user, made);
            && |p.s.sentMessages| <= |s.sentMessages| && Within(s.log, p.s.log)
            && p.s.mesTimeouts == OpenedBy(c, s.mesTimeouts, s.sentMessages[..|s.sentMessages| - |p.s.sentMessages|])
    decreases |s.sentMessages|
  {
    hide Call, NotifyFirstSent, Within, AwaitsReply, JustOpened;
    if s.sentMessages == [] {
      WithinItself(s.log);
    } else {
      var called := Call(c, NotifyFirstSent(c, s), user, made, OnSent(s.sentMessages[0].id));
      OneNotification(c, s, user, made);
      var first := s.sentMessages[..1];
      assert first[1..] == [];
      if !called.threw {
        SentPassOpens(c, called.s, user, called.calls);
        var p := SentPass(c, called.s, user, called.calls);
        var told := |s.sentMessages| - |p.s.sentMessages|;
        assert s.sentMessages[..told][1..] == s.sentMessages[1..][..told - 1];
        WithinIsTransitive(s.log, called.s.log, p.s.log);
      }
    }
  }

  lemma OpenedEarlier(before: History, between: History, after: History, id: nat, name: Name)
    requires Within(before, between) && OpenedBetween(between, after, id, name)
    ensures OpenedBetween(before, after, id, name)
  {
    var h: History :| JustOpened(h, id, name) && Within(between, h.past) && Within(h, after);
    WithinIsTransitive(before, between, h.past);
  }

  lemma OpenedLater(before: History, between: History, after: History, id: nat, name: Name)
    requires OpenedBetween(before, between, id, name) && Within(between, after)
    ensures OpenedBetween(before, after, id, name)
  {
    var h: History :| JustOpened(h, id, name) && Within(before, h.past) && Within(h, between);
    WithinIsTransitive(h, between, after);
  }

  /** A request that an entry asks for is in the history, under the name that is open. */
  lemma {:induction false} SentPassRecordsOpening(c: Config, s: State, user: User, made: seq<Callback>, id: nat)
    requires s.CountersFit(c) && s.delivery.None? && SomeAsk(c, s.sentMessages, id) && !SentPass(c, s, user, made).threw
    ensures var p := SentPass(c, s, user, made);
            id in p.s.mesTimeouts && OpenedBetween(s.log, p.s.log, id, p.s.mesTimeouts[id])
    decreases |s.sentMessages|
  {
    hide Call, NotifyFirstSent, Within, AwaitsReply, JustOpened;
    var called := Call(c, NotifyFirstSent(c, s), user, made, OnSent(s.sentMessages[0].id));
    var p := SentPass(c, s, user, made);
    OneNotification(c, s, user, made);
    SentPassOpens(c, called.s, user, called.calls);
    SentPassTellsPrefix(c, called.s, user, called.calls);
    if SomeAsk(c, called.s.sentMessages, id) {
      SentPassRecordsOpening(c, called.s, user, called.calls, id);
      OpenedEarlier(s.log, called.s.log, p.s.log, id, p.s.mesTimeouts[id]);
    } else {
      FirstOrLaterAsks(c, s.sentMessages, id);
      assert called.s.sentMessages[..|called.s.sentMessages|] == called.s.sentMessages;
      OpenedByKeeps(c, called.s.mesTimeouts, called.s.sentMessages, id);
      OpenedLater(s.log, called.s.log, p.s.log, id, s.sentMessages[0].name);
    }
  }

  lemma FirstOrLaterAsks(c: Config, sent: seq<SentMessageInfo>, id: nat)
    requires SomeAsk(c, sent, id)
    ensures sent != [] && (Asks(c, sent[0], id) || SomeAsk(c, sent[1..], id))
  {
    var i :| 0 <= i < |sent| && Asks(c, sent[i], id);
    if i > 0 {
      assert Asks(c, sent[1..][i - 1], id);
    }
  }

  /** No callback of the first two phases throws. */
  ghost predicate CalmUntilSent(user: User) {
    forall n: nat, callback: Callback | callback.OnConnected? || callback.OnSent? :: !user(n, callback).throws
  }

  lemma {:induction false} CalmSentPass(c: Config, s: State, user: User, made: seq<Callback>)
    requires s.CountersFit(c) && CalmUntilSent(user)
    ensures !SentPass(c, s, user, made).threw
    decreases |s.sentMessages|
  {
    hide NotifyFirstSent, SendAll;
    if s.sentMessages != [] {
      var p := Call(c, NotifyFirstSent(c, s), user, made, OnSent(s.sentMessages[0].id));
      CalmSentPass(c, p.s, user, p.calls);
    }
  }

  lemma ConnectPassGrows(c: Config, s: State, env: Surroundings)
    requires s.CountersFit(c) && s.delivery.None?
    ensures var p := ConnectPass(c, s, env);
            Within(s.log, p.s.log) && SentCallbacks(p.s.log) == SentCallbacks(s.log)
  {
    hide SendAll, SentCallbacks, Within;
    ConnectPassReaches(c, s, env);
    ReachingGrows(c, s, ConnectPass(c, s, env).s);
    if s.justConnected {
      var s1 := s.(justConnected := false, sessionValid := s.sessionValid || env.sessionCreated);
      SendAllKeepsCallbacks(c, s1, env.user(0, OnConnected).sends);
    }
  }

  /** What stands in the history when a reply was delivered: at `h` every finished write had
      been told and the request opened, and the reply closed it and reached the user. */
  ghost predicate DeliveredAfterAll(s: State, r: State, m: Message, h: History, request: Name) {
    && SentCallbacks(h) == SentCallbacks(s.log) + s.sentMessages
    && OpenedBetween(s.log, h, m.rid, request)
    && Within(Then(Then(h, ReplyClosed(m.rid, request, m.name)), ArrivedCallback(m)), r.log)
  }

  /** The first reply in the buffer, to a request that is written but that the user was not
      told of yet. */
  ghost predicate ReplyIsNext(c: Config, s: State, m: Message) {
    && s.CountersFit(c) && s.delivery.None? && s.sessionValid && s.inBufferUpdated
    && Taken(c.platform, c.catalog, s.inBuffer) == Some(Ok(m)) && m.rid != 0
    && SomeAsk(c, s.sentMessages, m.rid) && AllAllow(c, s.sentMessages, m.rid, m.name)
  }

  lemma ReplyIsTaken(c: Config, s: State, user: User, made: seq<Callback>, quota: nat, m: Message)
    requires s.CountersFit(c) && s.delivery.None? && s.sessionValid && s.inBufferUpdated && quota > 0
    requires Taken(c.platform, c.catalog, s.inBuffer) == Some(Ok(m)) && m.rid != 0 && OpenFor(c, s.mesTimeouts, m.rid, m.name)
    ensures Within(Then(Then(s.log, ReplyClosed(m.rid, s.mesTimeouts[m.rid], m.name)), ArrivedCallback(m)),
                   ArrivedPass(c, s, user, made, quota).s.log)
  {
    hide Taken, Deliver, DecodeFirst, Within, Allows;
    DeliveredIff(c, s, m);
    var decoded := DecodeFirst(c, s);
    assert Apply(c, s, DecodeOne) == decoded;
    var p := ArrivedOne(c, s, user, made);
    DeliverReaches(c, decoded, user, made);
    ReachingGrows(c, decoded, p.s);
    if !p.threw {
      ArrivedPassReaches(c, p.s, user, p.calls, quota - 1);
      ReachingGrows(c, p.s, ArrivedPass(c, s, user, made, quota).s);
      WithinIsTransitive(decoded.log, p.s.log, ArrivedPass(c, s, user, made, quota).s.log);
    }
  }

  /** The order of the phases matters: a reply that is first in the buffer reaches its
      handler in this very call although its request is only opened by it, after the user was
      told about every finished write. */
  lemma RequestsOpenBeforeReplies(c: Config, s: State, env: Surroundings, m: Message)
    requires ReplyIsNext(c, s, m) && env.incomingQuota > 0 && CalmUntilSent(env.user)
    ensures exists h, request :: DeliveredAfterAll(s, MtProcess(c, s, env).s, m, h, request)
  {
    hide Taken, Within, SentPass, ArrivedPass, FinishProcess, Allows, SendAll, Asks, SentCallbacks, FirstFrame;
    hide JustOpened, Reaches;
    var connected := ConnectPass(c, s, env);
    ConnectPassGrows(c, s, env);
    assert !connected.threw;
    var sent := SentPass(c, connected.s, env.user, connected.calls);
    CalmSentPass(c, connected.s, env.user, connected.calls);
    SentPassTellsPrefix(c, connected.s, env.user, connected.calls);
    SentPassOpens(c, connected.s, env.user, connected.calls);
    SentPassRecordsOpening(c, connected.s, env.user, connected.calls, m.rid);
    var all := s.sentMessages;
    assert all[..|all|] == all;
    OpenedByHas(c, s.mesTimeouts, all, m.rid, m.name);
    var request := sent.s.mesTimeouts[m.rid];
    OpenedEarlier(s.log, connected.s.log, sent.s.log, m.rid, request);
    BufferIsNotEmpty(c, s.inBuffer);
    ReplyIsTaken(c, sent.s, env.user, sent.calls, env.incomingQuota, m);
    var arrived := ArrivedPass(c, sent.s, env.user, sent.calls, env.incomingQuota);
    var delivered := Then(Then(sent.s.log, ReplyClosed(m.rid, request, m.name)), ArrivedCallback(m));
    if !arrived.threw {
      FinishProcessReaches(c, arrived.s, env, arrived.calls);
      ReachingGrows(c, arrived.s, FinishProcess(c, arrived.s, env, arrived.calls).s);
      WithinIsTransitive(delivered, arrived.s.log, FinishProcess(c, arrived.s, env, arrived.calls).s.log);
    }
    assert DeliveredAfterAll(s, MtProcess(c, s, env).s, m, sent.s.log, request);
  }

  lemma BufferIsNotEmpty(c: Config, buffer: seq<byte>)
    requires Taken(c.platform, c.catalog, buffer).Some?
    ensures buffer != []
  {
  }
}
