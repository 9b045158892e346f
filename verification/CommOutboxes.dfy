/**
 Where the accepted messages are.  Every message that send accepted is in exactly one
 place, and as long as the internal ids have not come round, every completed write finds
 its entry.
 */
module CommOutboxes {
  import opened BinMessages
  import opened CommHistories
  import opened CommStates
  import opened MessageDecoder
  import opened MessageIds
  import opened Optional
  import opened Sequences

  datatype Tag = Tag(id: nat, name: Name)

  function TagOf(m: PreparedMessage): Tag {
    Tag(m.id, m.name)
  }

  function InfoTag(info: SentMessageInfo): Tag {
    Tag(info.id, info.name)
  }

  datatype Kind = AcceptedKind | NotifiedKind | FailedKind | LostKind

  predicate IsOf(e: Event, kind: Kind, p: Tag -> bool) {
    match kind
    case AcceptedKind => e.Accepted? && p(TagOf(e.m))
    case NotifiedKind => e.SentCallback? && p(InfoTag(e.info))
    case FailedKind => e.Failed? && p(TagOf(e.m))
    case LostKind => e.Lost? && p(TagOf(e.m))
  }

  /** Number of events of a kind about messages with property `p`. */
  function Count(h: History, kind: Kind, p: Tag -> bool): nat {
    if h.Start? then 0 else Count(h.past, kind, p) + if IsOf(h.event, kind, p) then 1 else 0
  }

  function CountQueued(queue: seq<PreparedMessage>, p: Tag -> bool): nat {
    if queue == [] then 0
    else CountQueued(queue[..|queue| - 1], p) + if p(TagOf(queue[|queue| - 1])) then 1 else 0
  }

  function CountSent(sent: seq<SentMessageInfo>, p: Tag -> bool): nat {
    if sent == [] then 0
    else CountSent(sent[..|sent| - 1], p) + if p(InfoTag(sent[|sent| - 1])) then 1 else 0
  }

  function InFlight(outBuffers: map<nat, PreparedMessage>, p: Tag -> bool): set<nat> {
    set id | id in outBuffers && p(TagOf(outBuffers[id]))
  }

  /** What an event does to the number of messages with property `p` that were accepted and
      not yet notified, failed or lost. */
  function Weight(e: Event, p: Tag -> bool): int {
    match e
    case Accepted(m) => if p(TagOf(m)) then 1 else 0
    case SentCallback(info) => if p(InfoTag(info)) then -1 else 0
    case Failed(_, m) => if p(TagOf(m)) then -1 else 0
    case Lost(m) => if p(TagOf(m)) then -1 else 0
    case _ => 0
  }

  function Unsettled(h: History, p: Tag -> bool): int {
    if h.Start? then 0 else Unsettled(h.past, p) + Weight(h.event, p)
  }

  /** Number of messages in the queue, in flight, and written but not notified. */
  function Held(s: State, p: Tag -> bool): nat {
    CountQueued(s.queue, p) + |InFlight(s.outBuffers, p)| + CountSent(s.sentMessages, p)
  }

  predicate Conserved(s: State, p: Tag -> bool) {
    Unsettled(s.log, p) == Held(s, p)
  }

  lemma {:induction false} UnsettledIsDifference(h: History, p: Tag -> bool)
    ensures Unsettled(h, p) == Count(h, AcceptedKind, p) - Count(h, NotifiedKind, p)
                               - Count(h, FailedKind, p) - Count(h, LostKind, p)
  {
    if h.Then? {
      UnsettledIsDifference(h.past, p);
    }
  }

  // ---- counting ---------------------------------------------------------------------

  lemma {:induction false} CountQueuedAppend(a: seq<PreparedMessage>, b: seq<PreparedMessage>, p: Tag -> bool)
    ensures CountQueued(a + b, p) == CountQueued(a, p) + CountQueued(b, p)
    decreases |b|
  {
    if b == [] {
      assert a + b == a;
    } else {
      CountQueuedAppend(a, b[..|b| - 1], p);
      assert (a + b)[..|a + b| - 1] == a + b[..|b| - 1];
    }
  }

  lemma {:induction false} CountSentAppend(a: seq<SentMessageInfo>, b: seq<SentMessageInfo>, p: Tag -> bool)
    ensures CountSent(a + b, p) == CountSent(a, p) + CountSent(b, p)
    decreases |b|
  {
    if b == [] {
      assert a + b == a;
    } else {
      CountSentAppend(a, b[..|b| - 1], p);
      assert (a + b)[..|a + b| - 1] == a + b[..|b| - 1];
    }
  }

  lemma CountQueuedOne(m: PreparedMessage, p: Tag -> bool)
    ensures CountQueued([m], p) == if p(TagOf(m)) then 1 else 0
  {
  }

  lemma CountSentOne(info: SentMessageInfo, p: Tag -> bool)
    ensures CountSent([info], p) == if p(InfoTag(info)) then 1 else 0
  {
  }

  lemma CountQueuedRemove(queue: seq<PreparedMessage>, i: nat, p: Tag -> bool)
    requires i < |queue|
    ensures CountQueued(queue[..i] + queue[i + 1..], p) == CountQueued(queue, p) - if p(TagOf(queue[i])) then 1 else 0
  {
    SplitAt(queue, i);
    CountQueuedAppend(queue[..i], [queue[i]] + queue[i + 1..], p);
    CountQueuedAppend([queue[i]], queue[i + 1..], p);
    CountQueuedAppend(queue[..i], queue[i + 1..], p);
    CountQueuedOne(queue[i], p);
  }

  lemma InFlightAdd(outBuffers: map<nat, PreparedMessage>, id: nat, m: PreparedMessage, p: Tag -> bool)
    requires id !in outBuffers
    ensures |InFlight(outBuffers[id := m], p)| == |InFlight(outBuffers, p)| + if p(TagOf(m)) then 1 else 0
  {
    assert InFlight(outBuffers[id := m], p) == InFlight(outBuffers, p) + if p(TagOf(m)) then {id} else {};
  }

  lemma InFlightRemove(outBuffers: map<nat, PreparedMessage>, id: nat, p: Tag -> bool)
    requires id in outBuffers
    ensures |InFlight(outBuffers - {id}, p)| == |InFlight(outBuffers, p)| - if p(TagOf(outBuffers[id])) then 1 else 0
  {
    assert InFlight(outBuffers, p) == InFlight(outBuffers - {id}, p) + if p(TagOf(outBuffers[id])) then {id} else {};
  }

  // ---- each step conserves ----------------------------------------------------------

  /** An event that is about no message of the outbox. */
  lemma NeutralEventConserves(s: State, r: State, e: Event, p: Tag -> bool)
    requires Conserved(s, p) && Weight(e, p) == 0
    requires r.log == Then(s.log, e)
    requires r.queue == s.queue && r.outBuffers == s.outBuffers && r.sentMessages == s.sentMessages
    ensures Conserved(r, p)
  {
  }

  lemma PrepareConserves(c: Config, s: State, m: Message, encodes: bool, p: Tag -> bool)
    requires s.CountersFit(c) && Conserved(s, p)
    ensures Conserved(PrepareToWrite(c, s, m, encodes), p)
  {
  }

  lemma StartConserves(c: Config, s: State, front: nat, p: Tag -> bool)
    requires s.CountersFit(c) && front < |s.queue| && Conserved(s, p)
    ensures Conserved(StartOneWrite(c, s, front), p)
  {
    var r, m := StartOneWrite(c, s, front), s.queue[front];
    CountQueuedRemove(s.queue, front, p);
    if s.internalMid in s.outBuffers {
      assert r.outBuffers == s.outBuffers && r.log == Then(s.log, Lost(m));
    } else {
      InFlightAdd(s.outBuffers, s.internalMid, m, p);
      assert r.log == Then(s.log, Started(s.internalMid, m));
    }
  }

  /** The entry of a completed write leaves the map for the sent vector or for good. */
  lemma EntryLeavesConserves(s: State, r: State, id: nat, sent: seq<SentMessageInfo>, e: Event, p: Tag -> bool)
    requires id in s.outBuffers && Conserved(s, p) && r.log == Then(s.log, e)
    requires r.queue == s.queue && r.outBuffers == s.outBuffers - {id} && r.sentMessages == s.sentMessages + sent
    requires Weight(e, p) == CountSent(sent, p) - Weight(Accepted(s.outBuffers[id]), p)
    ensures Conserved(r, p)
  {
    InFlightRemove(s.outBuffers, id, p);
    CountSentAppend(s.sentMessages, sent, p);
  }

  lemma CompletionConserves(s: State, id: nat, ok: bool, p: Tag -> bool)
    requires id in s.writing && Conserved(s, p)
    ensures Conserved(CompleteWrite(s, id, ok), p)
  {
    var r := CompleteWrite(s, id, ok);
    if id !in s.outBuffers {
      assert s.outBuffers - {id} == s.outBuffers;
      NeutralEventConserves(s, r, Unmatched(id), p);
    } else if ok {
      var info := SentInfo(id, s.outBuffers[id]);
      CountSentOne(info, p);
      EntryLeavesConserves(s, r, id, [info], Completed(info), p);
    } else {
      assert s.sentMessages + [] == s.sentMessages;
      EntryLeavesConserves(s, r, id, [], Failed(id, s.outBuffers[id]), p);
    }
  }

  lemma CallbackConserves(s: State, p: Tag -> bool)
    requires s.sentMessages != [] && Conserved(s, p)
    ensures Conserved(s.(sentMessages := s.sentMessages[1..], log := Then(s.log, SentCallback(s.sentMessages[0]))), p)
  {
    var info := s.sentMessages[0];
    assert s.sentMessages == [info] + s.sentMessages[1..];
    CountSentAppend([info], s.sentMessages[1..], p);
    CountSentOne(info, p);
  }

  lemma NotifyConserves(c: Config, s: State, p: Tag -> bool)
    requires s.sentMessages != [] && Conserved(s, p)
    ensures Conserved(NotifyFirstSent(c, s), p)
  {
    var info := s.sentMessages[0];
    if c.timeoutsEnabled && c.NeedReply(info.name) {
      CallbackConserves(RegMessageTimeout(s, info.id, info.name), p);
    } else {
      CallbackConserves(s, p);
    }
  }

  lemma ReceivedConserves(c: Config, s: State, m: Message, p: Tag -> bool)
    requires s.CountersFit(c) && Conserved(s, p)
    ensures Conserved(ProcessReceived(c, s, m), p)
  {
  }

  lemma ReplyConserves(c: Config, s: State, m: Message, p: Tag -> bool)
    requires s.CountersFit(c) && Conserved(s, p)
    ensures Conserved(ProcessReply(c, s, m), p)
  {
    var r := ProcessReply(c, s, m);
    if m.rid !in s.mesTimeouts {
      NeutralEventConserves(s, r, ReplyUnregistered(m.rid), p);
    } else if c.IsAllowedReply(s.mesTimeouts[m.rid], m.name) {
      var closed := CloseByReply(s, m);
      NeutralEventConserves(s, closed, ReplyClosed(m.rid, s.mesTimeouts[m.rid], m.name), p);
      ReceivedConserves(c, closed, m, p);
    } else {
      NeutralEventConserves(s, r, ReplyDisallowed(m.rid, s.mesTimeouts[m.rid], m.name), p);
    }
  }

  lemma IncomingConserves(c: Config, s: State, m: Message, p: Tag -> bool)
    requires s.CountersFit(c) && Conserved(s, p)
    ensures Conserved(ProcessIncoming(c, s, m), p)
  {
    if m.RidExists() {
      ReplyConserves(c, s, m, p);
    } else {
      ReceivedConserves(c, s, m, p);
    }
  }

  lemma ReactionConserves(c: Config, s: State, taken: Option<Result<Message>>, p: Tag -> bool)
    requires s.CountersFit(c) && Conserved(s, p)
    ensures Conserved(ReactTo(c, s, taken), p)
  {
    match taken
    case None =>
    case Some(Ok(m)) => IncomingConserves(c, s, m, p);
    case Some(Throws(e)) => NeutralEventConserves(s, ReactTo(c, s, taken), FrameRejected(e), p);
  }

  lemma UntouchedConserves(s: State, r: State, p: Tag -> bool)
    requires Conserved(s, p) && r.log == s.log
    requires r.queue == s.queue && r.outBuffers == s.outBuffers && r.sentMessages == s.sentMessages
    ensures Conserved(r, p)
  {
  }

  lemma SendingConserves(c: Config, s: State, step: Step, p: Tag -> bool)
    requires s.CountersFit(c) && Enabled(c, s, step) && Conserved(s, p) && IsSending(step)
    ensures Conserved(Apply(c, s, step), p)
  {
    hide Apply, PrepareToWrite, Conserved, ReplyTo;
    SendingIs(c, s, step);
    match step
    case Send(request) => PrepareConserves(c, s, request.message, request.encodes, p);
    case HandlerReturns(None) => UntouchedConserves(s, s.(delivery := None), p);
    case HandlerReturns(Some(request)) =>
      UntouchedConserves(s, s.(delivery := None), p);
      PrepareConserves(c, s.(delivery := None), ReplyTo(c, s.delivery.value, request.message), request.encodes, p);
  }

  lemma WritingConserves(c: Config, s: State, step: Step, p: Tag -> bool)
    requires s.CountersFit(c) && Enabled(c, s, step) && Conserved(s, p) && IsWriting(step)
    ensures Conserved(Apply(c, s, step), p)
  {
    hide StartOneWrite, CompleteWrite, Conserved;
    match step
    case StartWrite(front) => StartConserves(c, s, front, p);
    case WriteCompleted(id, ok) => CompletionConserves(s, id, ok, p);
  }

  lemma ProcessingConserves(c: Config, s: State, step: Step, p: Tag -> bool)
    requires s.CountersFit(c) && Enabled(c, s, step) && Conserved(s, p) && !IsSending(step) && !IsWriting(step)
    ensures Conserved(Apply(c, s, step), p)
  {
    hide Apply, NotifyFirstSent, ReactTo, Taken, Conserved;
    ProcessingIs(c, s, step);
    match step
    case ProcessOneSent => NotifyConserves(c, s, p);
    case DecodeOne =>
      UntouchedConserves(s, Cut(s), p);
      ReactionConserves(c, Cut(s), Taken(c.platform, c.catalog, s.inBuffer), p);
    case ProcessOneTimeout(mid) => NeutralEventConserves(s, Apply(c, s, step), TimeoutCallback(mid), p);
    case _ => UntouchedConserves(s, Apply(c, s, step), p);
  }

  lemma StepConserves(c: Config, s: State, step: Step, p: Tag -> bool)
    requires s.CountersFit(c) && Enabled(c, s, step) && Conserved(s, p)
    ensures Conserved(Apply(c, s, step), p)
  {
    hide Apply, Enabled, Conserved;
    if IsSending(step) {
      SendingConserves(c, s, step, p);
    } else if IsWriting(step) {
      WritingConserves(c, s, step, p);
    } else {
      ProcessingConserves(c, s, step, p);
    }
  }

  lemma {:induction false} RunsConserve(c: Config, s: State, steps: seq<Step>, p: Tag -> bool)
    requires s.CountersFit(c) && ValidRun(c, s, steps) && Conserved(s, p)
    ensures Conserved(Run(c, s, steps), p)
    decreases |steps|
  {
    if steps != [] {
      StepConserves(c, s, steps[0], p);
      RunsConserve(c, Apply(c, s, steps[0]), steps[1..], p);
    }
  }

  /** Outbox conservation: in every reachable state each accepted message, whatever its
      kind, is queued, in flight, written but not notified, notified, failed, or lost, and
      it is in one of these places only. */
  lemma OutboxConservation(c: Config, steps: seq<Step>, p: Tag -> bool)
    requires INITIAL_STATE.CountersFit(c) && ValidRun(c, INITIAL_STATE, steps)
    ensures var r := Run(c, INITIAL_STATE, steps);
            Count(r.log, AcceptedKind, p)
            == CountQueued(r.queue, p) + |InFlight(r.outBuffers, p)| + CountSent(r.sentMessages, p)
               + Count(r.log, NotifiedKind, p) + Count(r.log, FailedKind, p) + Count(r.log, LostKind, p)
  {
    assert InFlight(INITIAL_STATE.outBuffers, p) == {};
    RunsConserve(c, INITIAL_STATE, steps, p);
    UnsettledIsDifference(Run(c, INITIAL_STATE, steps).log, p);
  }

  // ---- internal ids -----------------------------------------------------------------

  function CountStarts(steps: seq<Step>): nat {
    if steps == [] then 0 else (if steps[0].StartWrite? then 1 else 0) + CountStarts(steps[1..])
  }

  /** Messages that found their internal id taken, and completions without an entry. */
  function Losses(h: History): nat {
    if h.Start? then 0 else Losses(h.past) + if h.event.Lost? || h.event.Unmatched? then 1 else 0
  }

  /** After `starts` writes, at most as many as there are internal ids: outstanding writes
      and entries correspond, all under ids that were handed out once. */
  ghost predicate Matched(c: Config, s: State, starts: nat) {
    && starts <= c.IdModulus()
    && s.internalMid == (if starts == c.IdModulus() then 0 else starts)
    && s.writing == multiset(s.outBuffers.Keys)
    && (forall id | id in s.outBuffers :: id < starts)
    && Losses(s.log) == 0
  }

  lemma StartKeepsMatched(c: Config, s: State, front: nat, starts: nat)
    requires s.CountersFit(c) && front < |s.queue| && Matched(c, s, starts) && starts < c.IdModulus()
    ensures Matched(c, StartOneWrite(c, s, front), starts + 1)
  {
  }

  lemma CompletionKeepsMatched(c: Config, s: State, id: nat, ok: bool, starts: nat)
    requires s.CountersFit(c) && id in s.writing && Matched(c, s, starts)
    ensures Matched(c, CompleteWrite(s, id, ok), starts)
  {
  }

  /** Neither the internal ids nor the record of losses changes from `s` to `r`. */
  ghost predicate Quiet(s: State, r: State) {
    && r.internalMid == s.internalMid && r.writing == s.writing && r.outBuffers == s.outBuffers
    && Losses(r.log) == Losses(s.log)
  }

  lemma {:induction false} ExtensionIsQuiet(before: History, step: Step, after: History)
    requires Extends(before, step, after) && !step.StartWrite? && !step.WriteCompleted?
    ensures Losses(after) == Losses(before)
  {
  }

  lemma OtherStepsAreQuiet(c: Config, s: State, step: Step)
    requires s.CountersFit(c) && Enabled(c, s, step) && !step.StartWrite? && !step.WriteCompleted?
    ensures Quiet(s, Apply(c, s, step))
  {
    StepEmits(c, s, step);
    ExtensionIsQuiet(s.log, step, Apply(c, s, step).log);
  }

  lemma StepKeepsMatched(c: Config, s: State, step: Step, starts: nat)
    requires s.CountersFit(c) && Enabled(c, s, step) && Matched(c, s, starts)
    requires step.StartWrite? ==> starts < c.IdModulus()
    ensures Matched(c, Apply(c, s, step), starts + if step.StartWrite? then 1 else 0)
  {
    hide StartOneWrite, CompleteWrite;
    match step
    case WriteCompleted(id, ok) => CompletionKeepsMatched(c, s, id, ok, starts);
    case StartWrite(front) => StartKeepsMatched(c, s, front, starts);
    case _ => OtherStepsAreQuiet(c, s, step);
  }

  /** While no more writes were started than there are internal ids, the outstanding writes
      are exactly the entries, every completion finds its entry, and no message is lost. */
  lemma {:induction false} CompletionsFindTheirEntry(c: Config, s: State, steps: seq<Step>, starts: nat)
    requires s.CountersFit(c) && ValidRun(c, s, steps) && Matched(c, s, starts)
    requires starts + CountStarts(steps) <= c.IdModulus()
    ensures Matched(c, Run(c, s, steps), starts + CountStarts(steps))
    decreases |steps|
  {
    if steps != [] {
      StepKeepsMatched(c, s, steps[0], starts);
      CompletionsFindTheirEntry(c, Apply(c, s, steps[0]), steps[1..], starts + if steps[0].StartWrite? then 1 else 0);
    }
  }

  /** Every write of the run found its internal id free. */
  ghost predicate FreeIds(c: Config, s: State, steps: seq<Step>)
    requires s.CountersFit(c) && ValidRun(c, s, steps)
    decreases |steps|
  {
    steps != [] ==>
      && (steps[0].StartWrite? ==> s.internalMid !in s.outBuffers)
      && FreeIds(c, Apply(c, s, steps[0]), steps[1..])
  }

  /** Outstanding writes and entries correspond. */
  ghost predicate Paired(s: State) {
    s.writing == multiset(s.outBuffers.Keys)
  }

  lemma StartPairing(c: Config, s: State, front: nat)
    requires s.CountersFit(c) && front < |s.queue|
    ensures var r := StartOneWrite(c, s, front);
            if s.internalMid in s.outBuffers then Losses(r.log) == Losses(s.log) + 1
            else Losses(r.log) == Losses(s.log) && (Paired(s) ==> Paired(r))
  {
  }

  lemma CompletionPairing(s: State, id: nat, ok: bool)
    requires id in s.writing
    ensures var r := CompleteWrite(s, id, ok);
            && Losses(r.log) >= Losses(s.log)
            && (Paired(s) ==> Losses(r.log) == Losses(s.log) && Paired(r))
  {
  }

  lemma StepPairing(c: Config, s: State, step: Step)
    requires s.CountersFit(c) && Enabled(c, s, step)
    ensures var r, free := Apply(c, s, step), !step.StartWrite? || s.internalMid !in s.outBuffers;
            && Losses(r.log) >= Losses(s.log)
            && (!free ==> Losses(r.log) > Losses(s.log))
            && (free && Paired(s) ==> Losses(r.log) == Losses(s.log) && Paired(r))
  {
    hide StartOneWrite, CompleteWrite;
    match step
    case StartWrite(front) => StartPairing(c, s, front);
    case WriteCompleted(id, ok) => CompletionPairing(s, id, ok);
    case _ => OtherStepsAreQuiet(c, s, step);
  }

  lemma {:induction false} LossesNeverFall(c: Config, s: State, steps: seq<Step>)
    requires s.CountersFit(c) && ValidRun(c, s, steps)
    ensures Losses(Run(c, s, steps).log) >= Losses(s.log)
    decreases |steps|
  {
    hide Apply, Enabled;
    if steps != [] {
      StepPairing(c, s, steps[0]);
      LossesNeverFall(c, Apply(c, s, steps[0]), steps[1..]);
    }
  }

  /** A run loses no message and has no completion without its entry exactly when every write
      found its internal id free; and as long as that is so, the outstanding writes are
      exactly the entries. */
  lemma {:induction false} NothingIsLostIff(c: Config, s: State, steps: seq<Step>)
    requires s.CountersFit(c) && ValidRun(c, s, steps) && Paired(s)
    ensures FreeIds(c, s, steps) <==> Losses(Run(c, s, steps).log) == Losses(s.log)
    ensures FreeIds(c, s, steps) ==> Paired(Run(c, s, steps))
    decreases |steps|
  {
    hide Apply, Enabled;
    if steps != [] {
      var next := Apply(c, s, steps[0]);
      StepPairing(c, s, steps[0]);
      LossesNeverFall(c, next, steps[1..]);
      if !steps[0].StartWrite? || s.internalMid !in s.outBuffers {
        NothingIsLostIff(c, next, steps[1..]);
      }
    }
  }

  // ---- a run that loses a message ---------------------------------------------------

  /** `k` messages sent and their writes started, and none of the writes completed. */
  function Unanswered(request: SendRequest, k: nat): seq<Step> {
    if k == 0 then [] else Unanswered(request, k - 1) + [Send(request), StartWrite(0)]
  }

  /** Connected, nothing queued, and the first `k` internal ids taken. */
  ghost predicate Crowded(c: Config, s: State, k: nat) {
    && s.CountersFit(c) && s.sessionValid && s.delivery.None? && s.queue == []
    && k <= c.IdModulus() && s.internalMid == (if k == c.IdModulus() then 0 else k)
    && (forall id | 0 <= id < k :: id in s.outBuffers) && (forall id | id in s.outBuffers :: id < k)
    && Losses(s.log) == 0
  }

  /** A message with an id of its own whose encoding does not throw. */
  predicate IsSendable(c: Config, request: SendRequest) {
    request.message.IdExists() && request.encodes && Serialized(c.platform, request.message).Some?
  }

  lemma SendQueues(c: Config, s: State, request: SendRequest)
    requires s.CountersFit(c) && s.sessionValid && s.queue == [] && IsSendable(c, request)
    ensures var r := Apply(c, s, Send(request));
            && |r.queue| == 1 && r.log == Then(s.log, Accepted(r.queue[0])) && r == s.(queue := r.queue, log := r.log)
  {
    hide Serialized;
  }

  lemma StartCrowds(c: Config, s: State, k: nat)
    requires s.CountersFit(c) && |s.queue| == 1 && Crowded(c, s.(queue := []), k)
    ensures var r := StartOneWrite(c, s, 0);
            if k < c.IdModulus() then Crowded(c, r, k + 1) else r.log == Then(s.log, Lost(s.queue[0]))
  {
  }

  lemma TwoSteps(c: Config, s: State, first: Step, second: Step)
    requires s.CountersFit(c) && Enabled(c, s, first) && Enabled(c, Apply(c, s, first), second)
    ensures ValidRun(c, s, [first, second]) && Run(c, s, [first, second]) == Apply(c, Apply(c, s, first), second)
  {
    hide Apply, Enabled;
    assert [first, second][1..] == [second] && [second][1..] == [];
    var next := Apply(c, s, first);
    assert ValidRun(c, Apply(c, next, second), []);
    assert ValidRun(c, next, [second]) && Run(c, next, [second]) == Apply(c, next, second);
  }

  /** One more message: it takes the next internal id, or is lost when there is none left. */
  lemma OneMore(c: Config, s: State, request: SendRequest, k: nat)
    requires Crowded(c, s, k) && IsSendable(c, request)
    ensures ValidRun(c, s, [Send(request), StartWrite(0)])
    ensures var r := Run(c, s, [Send(request), StartWrite(0)]);
            if k < c.IdModulus() then Crowded(c, r, k + 1) else Losses(r.log) == 1 && r.log.Then? && r.log.event.Lost?
  {
    hide PrepareToWrite, StartOneWrite, IsSendable, ValidRun, Run;
    SendQueues(c, s, request);
    var sent := Apply(c, s, Send(request));
    assert sent.(queue := []) == s.(log := sent.log);
    StartCrowds(c, sent, k);
    TwoSteps(c, s, Send(request), StartWrite(0));
  }

  lemma {:induction false} UnansweredCrowd(c: Config, s: State, request: SendRequest, k: nat)
    requires s.CountersFit(c) && Crowded(c, s, 0) && IsSendable(c, request) && k <= c.IdModulus()
    ensures ValidRun(c, s, Unanswered(request, k)) && Crowded(c, Run(c, s, Unanswered(request, k)), k)
  {
    hide Apply, Enabled, IsSendable, Crowded;
    if k > 0 {
      UnansweredCrowd(c, s, request, k - 1);
      var before := Run(c, s, Unanswered(request, k - 1));
      OneMore(c, before, request, k - 1);
      RunAppend(c, s, Unanswered(request, k - 1), [Send(request), StartWrite(0)]);
    }
  }

  /** One message more than there are internal ids, and no write completed: the last one is
      accepted and lost. */
  lemma FullCircleLosesMessage(c: Config, request: SendRequest)
    requires IsSendable(c, request)
    ensures var steps := [SocketConnected, ProcessConnect(true)] + Unanswered(request, c.IdModulus() + 1);
            && INITIAL_STATE.CountersFit(c) && ValidRun(c, INITIAL_STATE, steps)
            && Losses(Run(c, INITIAL_STATE, steps).log) == 1 && Run(c, INITIAL_STATE, steps).log.event.Lost?
  {
    hide IsSendable, Run, ValidRun;
    var connect, all := [SocketConnected, ProcessConnect(true)], Unanswered(request, c.IdModulus());
    TwoSteps(c, INITIAL_STATE, SocketConnected, ProcessConnect(true));
    var connected := Run(c, INITIAL_STATE, connect);
    assert Crowded(c, connected, 0);
    UnansweredCrowd(c, connected, request, c.IdModulus());
    var full := Run(c, connected, all);
    OneMore(c, full, request, c.IdModulus());
    RunAppend(c, connected, all, [Send(request), StartWrite(0)]);
    RunAppend(c, INITIAL_STATE, connect, Unanswered(request, c.IdModulus() + 1));
  }
}
