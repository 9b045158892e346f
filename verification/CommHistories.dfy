/**
 Which histories a communicator can have.  Replaying a history gives the entries that wait
 for their sent callback and the requests that wait for a reply; the rules say what may
 happen next; and every run of the communicator keeps to the rules.
 */
module CommHistories {
  import opened BasicDetail
  import opened BinMessages
  import opened CommStates
  import opened MessageDecoder
  import opened Optional
  import opened Sequences

  /** Written but not yet notified messages, and open requests by id. */
  datatype View = View(sent: seq<SentMessageInfo>, open: map<nat, Name>)

  function Update(v: View, e: Event): View {
    match e
    case Completed(info) => v.(sent := v.sent + [info])
    case SentCallback(_) => v.(sent := if v.sent == [] then [] else v.sent[1..])
    case Opened(mid, name) => v.(open := v.open[mid := name])
    case Reopened(mid, name) => v.(open := v.open[mid := name])
    case TimeoutCallback(mid) => v.(open := v.open - {mid})
    case ReplyClosed(mid, _, _) => v.(open := v.open - {mid})
    case _ => v
  }

  function Replay(h: History): View {
    match h
    case Start => View([], map[])
    case Then(past, e) => Update(Replay(past), e)
  }

  /** A request that was opened has its sent callback next, and a reply that closed its
      request reaches the user next. */
  predicate Follows(h: History, e: Event) {
    h.Then? ==>
      match h.event
      case Opened(mid, name) => e.SentCallback? && e.info.id == mid && e.info.name == name
      case Reopened(mid, name) => e.SentCallback? && e.info.id == mid && e.info.name == name
      case ReplyClosed(mid, _, reply) =>
        e.ArrivedCallback? && e.message.RidExists() && e.message.rid == mid && e.message.name == reply
      case _ => true
  }

  predicate JustOpened(h: History, mid: nat, name: Name) {
    h.Then? && (h.event == Opened(mid, name) || h.event == Reopened(mid, name))
  }

  /** The rules.  A sent callback is for the oldest completed write not yet notified, and its
      request was opened just before if it waits for a reply.  A request is opened when it is
      not open, and closed, by timeout or by an allowed reply, only while it is open.  A reply
      reaches the user only right after it closed its request; one that is not allowed changes
      nothing, and one that is late is dropped. */
  predicate LegalNext(c: Config, h: History, e: Event) {
    var v := Replay(h);
    Follows(h, e) &&
    match e
    case SentCallback(info) =>
      && v.sent != [] && v.sent[0] == info
      && (c.timeoutsEnabled && c.NeedReply(info.name) ==> JustOpened(h, info.id, info.name))
    case Opened(mid, name) => mid !in v.open && c.timeoutsEnabled && c.NeedReply(name)
    case Reopened(mid, name) => mid in v.open && c.timeoutsEnabled && c.NeedReply(name)
    case TimeoutCallback(mid) => mid in v.open && c.timeoutsEnabled
    case ReplyClosed(mid, request, reply) =>
      mid in v.open && v.open[mid] == request && c.IsAllowedReply(request, reply)
    case ReplyDisallowed(mid, request, reply) =>
      mid in v.open && v.open[mid] == request && !c.IsAllowedReply(request, reply)
    case ReplyUnregistered(mid) => mid !in v.open
    case ArrivedCallback(m) =>
      m.RidExists() ==> h.Then? && h.event.ReplyClosed? && h.event.mid == m.rid && h.event.reply == m.name
    case _ => true
  }

  predicate Legal(c: Config, h: History) {
    h.Start? || (Legal(c, h.past) && LegalNext(c, h.past, h.event))
  }

  /** Nothing has to follow. */
  predicate IsSettled(h: History) {
    h.Then? ==> !h.event.Opened? && !h.event.Reopened? && !h.event.ReplyClosed?
  }

  /** The state agrees with its history, and the history keeps to the rules. */
  predicate Agrees(c: Config, s: State) {
    Legal(c, s.log) && Replay(s.log) == View(s.sentMessages, s.mesTimeouts)
  }

  /** The same between steps. */
  predicate Consistent(c: Config, s: State) {
    Agrees(c, s) && IsSettled(s.log)
  }

  lemma PrepareKeepsConsistent(c: Config, s: State, m: Message, encodes: bool)
    requires s.CountersFit(c) && Consistent(c, s)
    ensures Consistent(c, PrepareToWrite(c, s, m, encodes))
  {
  }

  lemma RegisterAgrees(c: Config, s: State, mid: nat, name: Name)
    requires Consistent(c, s) && c.timeoutsEnabled && c.NeedReply(name)
    ensures var r := RegMessageTimeout(s, mid, name);
            && Agrees(c, r) && JustOpened(r.log, mid, name) && r.sentMessages == s.sentMessages
  {
  }

  lemma CallbackKeepsConsistent(c: Config, s: State)
    requires Agrees(c, s) && s.sentMessages != [] && LegalNext(c, s.log, SentCallback(s.sentMessages[0]))
    ensures Consistent(c, s.(sentMessages := s.sentMessages[1..], log := Then(s.log, SentCallback(s.sentMessages[0]))))
  {
  }

  lemma NotifyKeepsConsistent(c: Config, s: State)
    requires Consistent(c, s) && s.sentMessages != []
    ensures Consistent(c, NotifyFirstSent(c, s))
  {
    var info := s.sentMessages[0];
    if c.timeoutsEnabled && c.NeedReply(info.name) {
      RegisterAgrees(c, s, info.id, info.name);
      CallbackKeepsConsistent(c, RegMessageTimeout(s, info.id, info.name));
    } else {
      CallbackKeepsConsistent(c, s);
    }
  }

  lemma ReceivedKeepsConsistent(c: Config, s: State, m: Message)
    requires s.CountersFit(c) && Agrees(c, s) && LegalNext(c, s.log, ArrivedCallback(m))
    ensures Consistent(c, ProcessReceived(c, s, m))
  {
  }

  lemma CloseAgrees(c: Config, s: State, m: Message)
    requires Consistent(c, s) && m.RidExists() && m.rid in s.mesTimeouts && c.IsAllowedReply(s.mesTimeouts[m.rid], m.name)
    ensures Agrees(c, CloseByReply(s, m)) && LegalNext(c, CloseByReply(s, m).log, ArrivedCallback(m))
  {
  }

  lemma ReplyKeepsConsistent(c: Config, s: State, m: Message)
    requires s.CountersFit(c) && Consistent(c, s) && m.RidExists()
    ensures Consistent(c, ProcessReply(c, s, m))
  {
    hide ProcessReceived;
    if m.rid in s.mesTimeouts {
      if c.IsAllowedReply(s.mesTimeouts[m.rid], m.name) {
        CloseAgrees(c, s, m);
        ReceivedKeepsConsistent(c, CloseByReply(s, m), m);
      }
    }
  }

  lemma IncomingKeepsConsistent(c: Config, s: State, m: Message)
    requires s.CountersFit(c) && Consistent(c, s)
    ensures Consistent(c, ProcessIncoming(c, s, m))
  {
    if m.RidExists() {
      ReplyKeepsConsistent(c, s, m);
    } else {
      ReceivedKeepsConsistent(c, s, m);
    }
  }

  lemma ReactionKeepsConsistent(c: Config, s: State, taken: Option<Result<Message>>)
    requires s.CountersFit(c) && Consistent(c, s)
    ensures Consistent(c, ReactTo(c, s, taken))
  {
    match taken
    case Some(Ok(m)) => IncomingKeepsConsistent(c, s, m);
    case _ =>
  }

  lemma StartedKeepsConsistent(c: Config, s: State, r: State, e: Event)
    requires Consistent(c, s) && (e.Started? || e.Lost?) && r.log == Then(s.log, e)
    requires r.sentMessages == s.sentMessages && r.mesTimeouts == s.mesTimeouts
    ensures Consistent(c, r)
  {
  }

  lemma WriteKeepsConsistent(c: Config, s: State, front: nat)
    requires s.CountersFit(c) && Consistent(c, s) && front < |s.queue|
    ensures Consistent(c, StartOneWrite(c, s, front))
  {
    hide Consistent;
    var r := StartOneWrite(c, s, front);
    StartedKeepsConsistent(c, s, r, r.log.event);
  }

  lemma CompletionKeepsConsistent(c: Config, s: State, id: nat, ok: bool)
    requires Consistent(c, s) && id in s.writing
    ensures Consistent(c, CompleteWrite(s, id, ok))
  {
  }

  lemma TimeoutKeepsConsistent(c: Config, s: State, mid: nat)
    requires s.CountersFit(c) && Consistent(c, s) && Enabled(c, s, ProcessOneTimeout(mid))
    ensures Consistent(c, Apply(c, s, ProcessOneTimeout(mid)))
  {
  }

  lemma UntouchedIsConsistent(c: Config, s: State, r: State)
    requires Consistent(c, s) && r.log == s.log && r.sentMessages == s.sentMessages && r.mesTimeouts == s.mesTimeouts
    ensures Consistent(c, r)
  {
  }

  lemma SendingKeepsConsistent(c: Config, s: State, step: Step)
    requires s.CountersFit(c) && Consistent(c, s) && Enabled(c, s, step) && IsSending(step)
    ensures Consistent(c, Apply(c, s, step))
  {
    hide Apply, PrepareToWrite, Consistent, ReplyTo;
    SendingIs(c, s, step);
    match step
    case Send(request) => PrepareKeepsConsistent(c, s, request.message, request.encodes);
    case HandlerReturns(None) => UntouchedIsConsistent(c, s, s.(delivery := None));
    case HandlerReturns(Some(request)) =>
      UntouchedIsConsistent(c, s, s.(delivery := None));
      PrepareKeepsConsistent(c, s.(delivery := None), ReplyTo(c, s.delivery.value, request.message), request.encodes);
  }

  lemma WritingKeepsConsistent(c: Config, s: State, step: Step)
    requires s.CountersFit(c) && Consistent(c, s) && Enabled(c, s, step) && IsWriting(step)
    ensures Consistent(c, Apply(c, s, step))
  {
    hide StartOneWrite, CompleteWrite, Consistent;
    match step
    case StartWrite(front) => WriteKeepsConsistent(c, s, front);
    case WriteCompleted(id, ok) => CompletionKeepsConsistent(c, s, id, ok);
  }

  lemma ProcessingKeepsConsistent(c: Config, s: State, step: Step)
    requires s.CountersFit(c) && Consistent(c, s) && Enabled(c, s, step) && !IsSending(step) && !IsWriting(step)
    ensures Consistent(c, Apply(c, s, step))
  {
    hide Apply, NotifyFirstSent, ReactTo, Taken, Consistent;
    ProcessingIs(c, s, step);
    match step
    case ProcessOneSent => NotifyKeepsConsistent(c, s);
    case DecodeOne =>
      UntouchedIsConsistent(c, s, Cut(s));
      ReactionKeepsConsistent(c, Cut(s), Taken(c.platform, c.catalog, s.inBuffer));
    case ProcessOneTimeout(mid) => TimeoutKeepsConsistent(c, s, mid);
    case _ => UntouchedIsConsistent(c, s, Apply(c, s, step));
  }

  lemma StepKeepsConsistent(c: Config, s: State, step: Step)
    requires s.CountersFit(c) && Consistent(c, s) && Enabled(c, s, step)
    ensures Consistent(c, Apply(c, s, step))
  {
    hide Apply, Enabled, Consistent;
    if IsSending(step) {
      SendingKeepsConsistent(c, s, step);
    } else if IsWriting(step) {
      WritingKeepsConsistent(c, s, step);
    } else {
      ProcessingKeepsConsistent(c, s, step);
    }
  }

  /** Every run keeps to the rules. */
  lemma {:induction false} RunsAreLegal(c: Config, s: State, steps: seq<Step>)
    requires s.CountersFit(c) && Consistent(c, s) && ValidRun(c, s, steps)
    ensures Consistent(c, Run(c, s, steps))
    decreases |steps|
  {
    if steps != [] {
      StepKeepsConsistent(c, s, steps[0]);
      RunsAreLegal(c, Apply(c, s, steps[0]), steps[1..]);
    }
  }

  // ---- which step writes what -------------------------------------------------------

  predicate MayEmit(step: Step, e: Event) {
    match e
    case Accepted(_) => step.Send? || step.HandlerReturns?
    case Started(_, _) => step.StartWrite?
    case Lost(_) => step.StartWrite?
    case Completed(_) => step.WriteCompleted?
    case Failed(_, _) => step.WriteCompleted?
    case Unmatched(_) => step.WriteCompleted?
    case Opened(_, _) => step.ProcessOneSent?
    case Reopened(_, _) => step.ProcessOneSent?
    case SentCallback(_) => step.ProcessOneSent?
    case TimeoutCallback(_) => step.ProcessOneTimeout?
    case _ => step.DecodeOne?
  }

  /** `after` is `before` and at most two events of the step. */
  predicate Extends(before: History, step: Step, after: History) {
    || after == before
    || (after.Then? && MayEmit(step, after.event)
        && (after.past == before
            || (after.past.Then? && MayEmit(step, after.past.event) && after.past.past == before)))
  }

  lemma EmitsOne(before: History, step: Step, e: Event)
    requires MayEmit(step, e)
    ensures Extends(before, step, Then(before, e))
  {
  }

  lemma EmitsTwo(before: History, step: Step, e: Event, f: Event)
    requires MayEmit(step, e) && MayEmit(step, f)
    ensures Extends(before, step, Then(Then(before, e), f))
  {
  }

  lemma ReplyEmits(c: Config, s: State, m: Message)
    requires s.CountersFit(c)
    ensures Extends(s.log, DecodeOne, ProcessReply(c, s, m).log)
  {
    hide ProcessReceived, Extends;
    if m.rid !in s.mesTimeouts {
      EmitsOne(s.log, DecodeOne, ReplyUnregistered(m.rid));
    } else {
      var opener := s.mesTimeouts[m.rid];
      EmitsOne(s.log, DecodeOne, ReplyDisallowed(m.rid, opener, m.name));
      EmitsTwo(s.log, DecodeOne, ReplyClosed(m.rid, opener, m.name), ArrivedCallback(m));
    }
  }

  lemma IncomingEmits(c: Config, s: State, m: Message)
    requires s.CountersFit(c)
    ensures Extends(s.log, DecodeOne, ProcessIncoming(c, s, m).log)
  {
    if m.RidExists() {
      ReplyEmits(c, s, m);
    }
  }

  lemma ReactionEmits(c: Config, s: State, taken: Option<Result<Message>>)
    requires s.CountersFit(c)
    ensures Extends(s.log, DecodeOne, ReactTo(c, s, taken).log)
  {
    match taken
    case Some(Ok(m)) => IncomingEmits(c, s, m);
    case _ =>
  }

  lemma PrepareEmits(c: Config, s: State, step: Step, m: Message, encodes: bool)
    requires s.CountersFit(c) && (step.Send? || step.HandlerReturns?)
    ensures Extends(s.log, step, PrepareToWrite(c, s, m, encodes).log)
  {
  }

  lemma SendingEmits(c: Config, s: State, step: Step)
    requires s.CountersFit(c) && Enabled(c, s, step) && IsSending(step)
    ensures Extends(s.log, step, Apply(c, s, step).log)
  {
    hide Apply, PrepareToWrite, ReplyTo;
    SendingIs(c, s, step);
    match step
    case Send(request) => PrepareEmits(c, s, step, request.message, request.encodes);
    case HandlerReturns(None) =>
    case HandlerReturns(Some(request)) =>
      PrepareEmits(c, s.(delivery := None), step, ReplyTo(c, s.delivery.value, request.message), request.encodes);
  }

  lemma StartEmits(c: Config, s: State, front: nat)
    requires s.CountersFit(c) && front < |s.queue|
    ensures Extends(s.log, StartWrite(front), StartOneWrite(c, s, front).log)
  {
  }

  lemma CompletionEmits(s: State, id: nat, ok: bool)
    requires id in s.writing
    ensures Extends(s.log, WriteCompleted(id, ok), CompleteWrite(s, id, ok).log)
  {
  }

  lemma WritingEmits(c: Config, s: State, step: Step)
    requires s.CountersFit(c) && Enabled(c, s, step) && IsWriting(step)
    ensures Extends(s.log, step, Apply(c, s, step).log)
  {
    hide StartOneWrite, CompleteWrite, Extends;
    match step
    case StartWrite(front) => StartEmits(c, s, front);
    case WriteCompleted(id, ok) => CompletionEmits(s, id, ok);
  }

  lemma NotifyEmits(c: Config, s: State)
    requires s.sentMessages != []
    ensures Extends(s.log, ProcessOneSent, NotifyFirstSent(c, s).log)
  {
  }

  lemma ProcessingEmits(c: Config, s: State, step: Step)
    requires s.CountersFit(c) && Enabled(c, s, step) && !IsSending(step) && !IsWriting(step)
    ensures Extends(s.log, step, Apply(c, s, step).log)
  {
    hide Apply, NotifyFirstSent, ReactTo, Taken;
    ProcessingIs(c, s, step);
    match step
    case ProcessOneSent => NotifyEmits(c, s);
    case DecodeOne => ReactionEmits(c, Cut(s), Taken(c.platform, c.catalog, s.inBuffer));
    case ProcessOneTimeout(mid) =>
    case _ =>
  }

  /** A step adds at most two events, of the kinds that belong to it. */
  lemma StepEmits(c: Config, s: State, step: Step)
    requires s.CountersFit(c) && Enabled(c, s, step)
    ensures Extends(s.log, step, Apply(c, s, step).log)
  {
    hide Apply, Enabled, Extends;
    if IsSending(step) {
      SendingEmits(c, s, step);
    } else if IsWriting(step) {
      WritingEmits(c, s, step);
    } else {
      ProcessingEmits(c, s, step);
    }
  }

  // ---- what the rules mean ----------------------------------------------------------

  function SentCallbacks(h: History): seq<SentMessageInfo> {
    match h
    case Start => []
    case Then(past, SentCallback(info)) => SentCallbacks(past) + [info]
    case Then(past, _) => SentCallbacks(past)
  }

  function Completions(h: History): seq<SentMessageInfo> {
    match h
    case Start => []
    case Then(past, Completed(info)) => Completions(past) + [info]
    case Then(past, _) => Completions(past)
  }

  /** Sent callbacks come once for each successful write and in the order in which the
      writes completed; those still to come are the sent vector, as it stands. */
  lemma {:induction false} SentCallbacksFollowCompletions(c: Config, h: History)
    requires Legal(c, h)
    ensures SentCallbacks(h) + Replay(h).sent == Completions(h)
  {
    if h.Then? {
      SentCallbacksFollowCompletions(c, h.past);
      if h.event.SentCallback? {
        var waiting := Replay(h.past).sent;
        assert waiting == [h.event.info] + waiting[1..];
        Associative(SentCallbacks(h.past), [h.event.info], waiting[1..]);
      } else if h.event.Completed? {
        Associative(SentCallbacks(h.past), Replay(h.past).sent, [h.event.info]);
      }
    }
  }

  predicate Opens(e: Event, mid: nat) {
    e.Opened? && e.mid == mid
  }

  /** The request's timeout handler is called, or its reply is accepted. */
  predicate Closes(e: Event, mid: nat) {
    (e.TimeoutCallback? || e.ReplyClosed?) && e.mid == mid
  }

  function CountOpens(h: History, mid: nat): nat {
    if h.Start? then 0 else CountOpens(h.past, mid) + if Opens(h.event, mid) then 1 else 0
  }

  function CountCloses(h: History, mid: nat): nat {
    if h.Start? then 0 else CountCloses(h.past, mid) + if Closes(h.event, mid) then 1 else 0
  }

  /** Openings and closings of a request alternate, so each opening is closed at most once,
      by an allowed reply or by timeout and never by both. */
  lemma {:induction false} OpensAndClosesAlternate(c: Config, h: History, mid: nat)
    requires Legal(c, h)
    ensures CountOpens(h, mid) == CountCloses(h, mid) + if mid in Replay(h).open then 1 else 0
  {
    if h.Then? {
      OpensAndClosesAlternate(c, h.past, mid);
    }
  }

  /** `h` is how the history began. */
  predicate Within(h: History, whole: History) {
    h == whole || (whole.Then? && Within(h, whole.past))
  }

  lemma {:induction false} PrefixIsLegal(c: Config, h: History, whole: History)
    requires Legal(c, whole) && Within(h, whole)
    ensures Legal(c, h)
  {
    if h != whole {
      PrefixIsLegal(c, h, whole.past);
    }
  }

  /** Between two closings of the same request it was opened anew. */
  lemma {:induction false} OpenedBetweenCloses(c: Config, first: History, later: History, mid: nat)
    requires Legal(c, later) && first.Then? && Closes(first.event, mid)
    requires later.Then? && Closes(later.event, mid) && Within(first, later.past)
    ensures exists h: History :: h.Then? && Opens(h.event, mid) && Within(first, h.past) && Within(h, later.past)
  {
    PrefixIsLegal(c, first, later.past);
    assert mid !in Replay(first).open;
    OpenedSince(c, first, later.past, mid);
  }

  lemma {:induction false} OpenedSince(c: Config, from: History, whole: History, mid: nat)
    requires Legal(c, whole) && Within(from, whole) && mid in Replay(whole).open && mid !in Replay(from).open
    ensures exists h: History :: h.Then? && Opens(h.event, mid) && Within(from, h.past) && Within(h, whole)
  {
    if Opens(whole.event, mid) {
      assert Within(from, whole.past) && Within(whole, whole);
    } else {
      OpenedSince(c, from, whole.past, mid);
      var h: History :| h.Then? && Opens(h.event, mid) && Within(from, h.past) && Within(h, whole.past);
      assert Within(h, whole);
    }
  }

  /** A sent callback for a message that waits for a reply comes right behind the opening of
      its request, and behind no opening if the message waits for none. */
  lemma {:induction false} CallbacksFollowOpenings(c: Config, h: History, info: SentMessageInfo, whole: History)
    requires Legal(c, whole) && Within(Then(h, SentCallback(info)), whole)
    ensures c.timeoutsEnabled && c.NeedReply(info.name) <==> h.Then? && (h.event.Opened? || h.event.Reopened?)
    ensures c.timeoutsEnabled && c.NeedReply(info.name) ==>
              JustOpened(h, info.id, info.name) && info.id in Replay(h).open && Replay(h).open[info.id] == info.name
  {
    PrefixIsLegal(c, Then(h, SentCallback(info)), whole);
  }

  /** A reply is given to the user only if its request was open, under a name that allows
      it, and it closed the request just before. */
  lemma {:induction false} RepliesArriveOnlyWhileOpen(c: Config, h: History, m: Message, whole: History)
    requires Legal(c, whole) && Within(Then(h, ArrivedCallback(m)), whole) && m.RidExists()
    ensures h.Then? && var open := Replay(h.past).open;
            && m.rid in open
            && h.event == ReplyClosed(m.rid, open[m.rid], m.name)
            && c.IsAllowedReply(open[m.rid], m.name)
            && Replay(h).open == open - {m.rid}
  {
    PrefixIsLegal(c, Then(h, ArrivedCallback(m)), whole);
  }
}
