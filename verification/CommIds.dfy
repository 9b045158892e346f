/**
 Message ids inside one communicator.  When the communicator gives out all ids itself and
 its counter has not come round, no two accepted messages share an id, and therefore no
 request is opened or closed twice.
 */
module CommIds {
  import opened BinMessages
  import opened CommHistories
  import opened CommOutboxes
  import opened CommStates
  import opened MessageDecoder
  import opened MessageIds
  import opened Optional

  /** The user leaves the ids of new messages to the communicator. */
  predicate IsPlain(step: Step) {
    match step
    case Send(request) => !request.message.IdExists()
    case HandlerReturns(out) => out.Some? ==> !out.value.message.IdExists()
    case _ => true
  }

  ghost predicate ArePlain(steps: seq<Step>) {
    forall i | 0 <= i < |steps| :: IsPlain(steps[i])
  }

  function IdIs(k: nat): Tag -> bool {
    (t: Tag) => t.id == k
  }

  function CountAccepted(h: History, k: nat): nat {
    Count(h, AcceptedKind, IdIs(k))
  }

  /** Ids are given out in order; none was used twice, and the one set aside for a pending
      reply has not been used at all. */
  ghost predicate Unique(c: Config, s: State) {
    && s.mesid == s.midCalls
    && (forall k: nat :: CountAccepted(s.log, k) <= 1)
    && (forall k: nat | CountAccepted(s.log, k) > 0 :: 0 < k <= s.mesid)
    && (s.delivery.Some? ==> 0 < s.delivery.value.outId <= s.mesid && CountAccepted(s.log, s.delivery.value.outId) == 0)
  }

  /** Events that accept nothing leave the counts alone. */
  lemma {:induction false} ExtensionKeepsCounts(before: History, step: Step, after: History, k: nat)
    requires Extends(before, step, after) && !step.Send? && !step.HandlerReturns?
    ensures CountAccepted(after, k) == CountAccepted(before, k)
  {
    if after != before {
      assert !after.event.Accepted?;
      assert CountAccepted(after, k) == CountAccepted(after.past, k);
      assert after.past != before ==> CountAccepted(after.past, k) == CountAccepted(before, k);
    }
  }

  /** Sending a message that has an id of its own. */
  lemma PrepareKeepsUnique(c: Config, s: State, m: Message, encodes: bool)
    requires c.useUniqueMessageId && s.CountersFit(c) && Unique(c, s) && s.delivery.None?
    requires 0 < m.id <= s.mesid && CountAccepted(s.log, m.id) == 0
    ensures Unique(c, PrepareToWrite(c, s, m, encodes))
  {
    var r := PrepareToWrite(c, s, m, encodes);
    if r.log != s.log {
      forall k: nat
        ensures CountAccepted(r.log, k) == CountAccepted(s.log, k) + if m.id == k then 1 else 0
      {
      }
    }
  }

  lemma SendKeepsUnique(c: Config, s: State, m: Message, encodes: bool)
    requires c.useUniqueMessageId && s.CountersFit(c) && Unique(c, s)
    requires !m.IdExists() && PrepareToWrite(c, s, m, encodes).midCalls < c.IdModulus()
    ensures Unique(c, PrepareToWrite(c, s, m, encodes))
  {
    var r := PrepareToWrite(c, s, m, encodes);
    assert r.midCalls == s.midCalls + 1;
    assert r.mesid == s.mesid + 1;
    if r.log != s.log {
      forall k: nat
        ensures CountAccepted(r.log, k) == CountAccepted(s.log, k) + if r.mesid == k then 1 else 0
      {
      }
    }
  }

  lemma ReceivedCounts(c: Config, s: State, m: Message)
    requires c.useUniqueMessageId && s.CountersFit(c) && s.mesid == s.midCalls
    requires ProcessReceived(c, s, m).midCalls < c.IdModulus()
    ensures var r := ProcessReceived(c, s, m);
            r.mesid == r.midCalls == s.mesid + 1 && r.delivery.Some? && r.delivery.value.outId == r.mesid
  {
  }

  /** What looking at a message may do to the ids: nothing, or set a new one aside. */
  predicate CountsOn(s: State, r: State) {
    && r.mesid == r.midCalls && s.mesid <= r.mesid
    && (r.delivery.Some? ==> s.mesid < r.delivery.value.outId == r.mesid)
  }

  lemma ReplyCounts(c: Config, s: State, m: Message)
    requires c.useUniqueMessageId && s.CountersFit(c) && s.delivery.None? && s.mesid == s.midCalls
    requires ProcessReply(c, s, m).midCalls < c.IdModulus()
    ensures CountsOn(s, ProcessReply(c, s, m))
  {
    hide ProcessReceived;
    if m.rid in s.mesTimeouts && c.IsAllowedReply(s.mesTimeouts[m.rid], m.name) {
      ReceivedCounts(c, CloseByReply(s, m), m);
    } else {
      assert ProcessReply(c, s, m) == s.(log := ProcessReply(c, s, m).log);
    }
  }

  lemma IncomingCounts(c: Config, s: State, m: Message)
    requires c.useUniqueMessageId && s.CountersFit(c) && s.delivery.None? && s.mesid == s.midCalls
    requires ProcessIncoming(c, s, m).midCalls < c.IdModulus()
    ensures CountsOn(s, ProcessIncoming(c, s, m))
  {
    hide ProcessReply, ProcessReceived;
    if m.RidExists() {
      ReplyCounts(c, s, m);
    } else {
      ReceivedCounts(c, s, m);
    }
  }

  lemma ReactionKeepsUnique(c: Config, s: State, taken: Option<Result<Message>>)
    requires c.useUniqueMessageId && s.CountersFit(c) && Unique(c, s) && s.delivery.None?
    requires ReactTo(c, s, taken).midCalls < c.IdModulus()
    ensures Unique(c, ReactTo(c, s, taken))
  {
    if taken.Some? {
      if taken.value.Ok? {
        IncomingCounts(c, s, taken.value.value);
      }
    }
    ReactionEmits(c, s, taken);
    forall k: nat
      ensures CountAccepted(ReactTo(c, s, taken).log, k) == CountAccepted(s.log, k)
    {
      ExtensionKeepsCounts(s.log, DecodeOne, ReactTo(c, s, taken).log, k);
    }
  }

  lemma QuietStepKeepsUnique(c: Config, s: State, step: Step)
    requires s.CountersFit(c) && Enabled(c, s, step) && Unique(c, s)
    requires !step.Send? && !step.HandlerReturns? && !step.DecodeOne?
    ensures Unique(c, Apply(c, s, step))
  {
    var r := Apply(c, s, step);
    StepEmits(c, s, step);
    forall k: nat
      ensures CountAccepted(r.log, k) == CountAccepted(s.log, k)
    {
      ExtensionKeepsCounts(s.log, step, r.log, k);
    }
  }

  lemma AnswerKeepsUnique(c: Config, s: State, request: SendRequest)
    requires c.useUniqueMessageId && s.CountersFit(c) && s.delivery.Some? && Unique(c, s) && !request.message.IdExists()
    ensures Unique(c, PrepareToWrite(c, s.(delivery := None), ReplyTo(c, s.delivery.value, request.message), request.encodes))
  {
    hide PrepareToWrite;
    PrepareKeepsUnique(c, s.(delivery := None), ReplyTo(c, s.delivery.value, request.message), request.encodes);
  }

  lemma StepKeepsUnique(c: Config, s: State, step: Step)
    requires c.useUniqueMessageId && s.CountersFit(c) && Enabled(c, s, step) && IsPlain(step) && Unique(c, s)
    requires Apply(c, s, step).midCalls < c.IdModulus()
    ensures Unique(c, Apply(c, s, step))
  {
    hide Apply, PrepareToWrite, ReactTo, Taken, ReplyTo;
    if IsSending(step) {
      SendingIs(c, s, step);
      match step
      case Send(request) => SendKeepsUnique(c, s, request.message, request.encodes);
      case HandlerReturns(None) =>
      case HandlerReturns(Some(request)) => AnswerKeepsUnique(c, s, request);
    } else if step.DecodeOne? {
      ProcessingIs(c, s, step);
      ReactionKeepsUnique(c, Cut(s), Taken(c.platform, c.catalog, s.inBuffer));
    } else {
      QuietStepKeepsUnique(c, s, step);
    }
  }

  lemma {:induction false} RunsKeepUnique(c: Config, s: State, steps: seq<Step>)
    requires c.useUniqueMessageId && s.CountersFit(c) && ValidRun(c, s, steps) && ArePlain(steps) && Unique(c, s)
    requires Run(c, s, steps).midCalls < c.IdModulus()
    ensures Unique(c, Run(c, s, steps))
    decreases |steps|
  {
    if steps != [] {
      var next := Apply(c, s, steps[0]);
      assert next.midCalls <= Run(c, next, steps[1..]).midCalls;
      StepKeepsUnique(c, s, steps[0]);
      RunsKeepUnique(c, next, steps[1..]);
    }
  }

  // ---- requests ---------------------------------------------------------------------

  /** Each opening comes with a sent callback of the same id. */
  predicate OpensAreNotified(h: History, k: nat) {
    CountOpens(h, k) <= Count(h, NotifiedKind, IdIs(k))
  }

  lemma {:induction false} ExtensionKeepsOpens(before: History, step: Step, after: History, k: nat)
    requires Extends(before, step, after) && !step.ProcessOneSent? && OpensAreNotified(before, k)
    ensures OpensAreNotified(after, k)
  {
  }

  lemma {:induction false} NotifyKeepsOpens(c: Config, s: State, k: nat)
    requires s.sentMessages != [] && OpensAreNotified(s.log, k)
    ensures OpensAreNotified(NotifyFirstSent(c, s).log, k)
  {
  }

  lemma {:induction false} RunsKeepOpens(c: Config, s: State, steps: seq<Step>, k: nat)
    requires s.CountersFit(c) && ValidRun(c, s, steps) && OpensAreNotified(s.log, k)
    ensures OpensAreNotified(Run(c, s, steps).log, k)
    decreases |steps|
  {
    if steps != [] {
      if steps[0] == ProcessOneSent {
        NotifyKeepsOpens(c, s, k);
      } else {
        StepEmits(c, s, steps[0]);
        ExtensionKeepsOpens(s.log, steps[0], Apply(c, s, steps[0]).log, k);
      }
      RunsKeepOpens(c, Apply(c, s, steps[0]), steps[1..], k);
    }
  }

  /** In a run in which the communicator gives out all ids and the counter has not come
      round: one message per id, one sent callback per message, and a request that is
      opened at most once and closed at most once, by its reply or by its timeout. */
  lemma RequestsCloseAtMostOnce(c: Config, steps: seq<Step>, k: nat)
    requires c.useUniqueMessageId && INITIAL_STATE.CountersFit(c)
    requires ValidRun(c, INITIAL_STATE, steps) && ArePlain(steps)
    requires Run(c, INITIAL_STATE, steps).midCalls < c.IdModulus()
    ensures var log := Run(c, INITIAL_STATE, steps).log;
            && CountCloses(log, k) <= CountOpens(log, k) <= Count(log, NotifiedKind, IdIs(k)) <= CountAccepted(log, k) <= 1
  {
    RunsKeepUnique(c, INITIAL_STATE, steps);
    OutboxConservation(c, steps, IdIs(k));
    RunsKeepOpens(c, INITIAL_STATE, steps, k);
    RunsAreLegal(c, INITIAL_STATE, steps);
    OpensAndClosesAlternate(c, Run(c, INITIAL_STATE, steps).log, k);
  }
}
