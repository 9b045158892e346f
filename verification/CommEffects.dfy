/**
 What the steps of a communicator achieve, said from outside: in terms of the message a user
 handed over, the table a user configured and the state, not of the pieces of the steps.
 */
module CommEffects {
  import opened BasicDetail
  import opened BinMessages
  import opened CommHistories
  import opened CommOutboxes
  import opened CommStates
  import opened Helper
  import opened MessageDecoder
  import opened MessageIds
  import opened Optional

  // ---- what is configured -----------------------------------------------------------

  /** A name without an entry, and an entry without answers, allow every reply. */
  predicate Allows(c: Config, request: Name, reply: Name) {
    request !in c.messages || c.messages[request].answers == {} || reply in c.messages[request].answers
  }

  /** A message of that name, once written, waits for its reply. */
  predicate AwaitsReply(c: Config, name: Name) {
    c.timeoutsEnabled && name in c.messages && c.messages[name].needReply
  }

  /** The header fits its length byte. */
  predicate FitsHeader(c: Config, m: Message) {
    var width := c.platform.idWidth;
    3 + |m.name| + (if m.id != 0 then width else 0) + (if m.rid != 0 then width else 0) <= 255
  }

  /** The id after `s.mesid`: zero is left out. */
  function NextId(c: Config, s: State): nat {
    if s.mesid + 1 == c.IdModulus() then 1 else s.mesid + 1
  }

  /** Exactly this message is put behind the queue, if it can be, and nothing otherwise. */
  predicate QueuesIff(c: Config, s: State, r: State, sent: Message, encodes: bool) {
    if s.sessionValid && encodes && FitsHeader(c, sent) then
      && Serialized(c.platform, sent).Some?
      && var prepared := PreparedMessage(sent.id, sent.name, Frame(Serialized(c.platform, sent).value));
         r.queue == s.queue + [prepared] && r.log == Then(s.log, Accepted(prepared))
    else
      r.queue == s.queue && r.log == s.log
  }

  // ---- sending ----------------------------------------------------------------------

  lemma PreparedIff(c: Config, s: State, m: Message, encodes: bool)
    requires s.CountersFit(c)
    ensures var id := if m.id != 0 || !c.useUniqueMessageId then m.id else NextId(c, s);
            QueuesIff(c, s, PrepareToWrite(c, s, m, encodes), Message(m.name, id, m.rid, m.tail), encodes)
  {
    hide Frame;
  }

  /** A message that is sent keeps its name, reply id and tail, and its id if it has one; it
      is queued exactly if there is a session, the user's part encodes and the header fits. */
  lemma SendQueuesIff(c: Config, s: State, request: SendRequest)
    requires s.CountersFit(c)
    ensures var m := request.message;
            var id := if m.id != 0 || !c.useUniqueMessageId then m.id else NextId(c, s);
            QueuesIff(c, s, Apply(c, s, Send(request)), Message(m.name, id, m.rid, m.tail), request.encodes)
  {
    PreparedIff(c, s, request.message, request.encodes);
  }

  /** An answer goes out under the id of the message that it answers, and under its own id or
      the one that was set aside for it. */
  function AnswerTo(c: Config, d: Delivery, out: Message): Message {
    Message(out.name, if out.id == 0 && c.useUniqueMessageId then d.outId else out.id, d.message.id, out.tail)
  }

  lemma AnswerQueuesIff(c: Config, s: State, request: SendRequest)
    requires s.CountersFit(c) && s.delivery.Some?
    requires c.useUniqueMessageId ==> s.delivery.value.outId != 0
    ensures var r := Apply(c, s, HandlerReturns(Some(request)));
            && r.delivery.None?
            && QueuesIff(c, s, r, AnswerTo(c, s.delivery.value, request.message), request.encodes)
  {
    hide PrepareToWrite;
    var answer := ReplyTo(c, s.delivery.value, request.message);
    PreparedIff(c, s.(delivery := None), answer, request.encodes);
  }

  // ---- writing ----------------------------------------------------------------------

  /** The internal ids of the writes that completed as `ok` says, in order. */
  function WritesThatEnded(steps: seq<Step>, ok: bool): seq<nat> {
    if steps == [] then []
    else (match steps[0]
          case WriteCompleted(id, how) => if how == ok then [id] else []
          case _ => [])
         + WritesThatEnded(steps[1..], ok)
  }

  /** The internal ids under which a history has completions or failures. */
  function IdsThatEnded(h: History, ok: bool): seq<nat> {
    match h
    case Start => []
    case Then(past, Completed(info)) => IdsThatEnded(past, ok) + if ok then [info.intId] else []
    case Then(past, Failed(id, _)) => IdsThatEnded(past, ok) + if ok then [] else [id]
    case Then(past, _) => IdsThatEnded(past, ok)
  }

  lemma {:induction false} ExtensionEndsNothing(before: History, step: Step, after: History, ok: bool)
    requires Extends(before, step, after) && !step.WriteCompleted?
    ensures IdsThatEnded(after, ok) == IdsThatEnded(before, ok)
  {
    if after != before {
      assert IdsThatEnded(after, ok) == IdsThatEnded(after.past, ok);
    }
  }

  lemma StepEnds(c: Config, s: State, step: Step, ok: bool)
    requires s.CountersFit(c) && Enabled(c, s, step) && Paired(s)
    ensures IdsThatEnded(Apply(c, s, step).log, ok) == IdsThatEnded(s.log, ok) + WritesThatEnded([step], ok)
  {
    hide Apply, Enabled, Completion;
    assert [step][1..] == [];
    if step.WriteCompleted? {
      CompletionEnds(c, s, step.intId, step.ok, ok);
    } else {
      StepEmits(c, s, step);
      ExtensionEndsNothing(s.log, step, Apply(c, s, step).log, ok);
    }
  }

  lemma CompletionEnds(c: Config, s: State, id: nat, how: bool, ok: bool)
    requires s.CountersFit(c) && Enabled(c, s, WriteCompleted(id, how)) && Paired(s)
    ensures IdsThatEnded(Apply(c, s, WriteCompleted(id, how)).log, ok)
         == IdsThatEnded(s.log, ok) + if how == ok then [id] else []
  {
    assert id in s.outBuffers;
  }

  /** When every write finds a free internal id, the messages whose sent callback was or will
      be made are those whose write succeeded, and the failed ones those whose write failed,
      each in the order of the completions. */
  lemma {:induction false} OutcomesAreReported(c: Config, s: State, steps: seq<Step>, ok: bool)
    requires s.CountersFit(c) && ValidRun(c, s, steps) && Paired(s) && FreeIds(c, s, steps)
    ensures IdsThatEnded(Run(c, s, steps).log, ok) == IdsThatEnded(s.log, ok) + WritesThatEnded(steps, ok)
    decreases |steps|
  {
    hide Apply, Enabled, Paired, IdsThatEnded, WritesThatEnded;
    if steps == [] {
      NoneEnded(ok);
    } else {
      var next := Apply(c, s, steps[0]);
      StepEnds(c, s, steps[0], ok);
      StepPairing(c, s, steps[0]);
      OutcomesAreReported(c, next, steps[1..], ok);
      FirstEnds(steps, ok);
    }
  }

  lemma NoneEnded(ok: bool)
    ensures WritesThatEnded([], ok) == []
  {
  }

  lemma FirstEnds(steps: seq<Step>, ok: bool)
    requires steps != []
    ensures WritesThatEnded(steps, ok) == WritesThatEnded([steps[0]], ok) + WritesThatEnded(steps[1..], ok)
  {
    assert [steps[0]][1..] == [];
  }

  /** How the latest read since the errors were last reported ended. */
  function LatestRead(failed: bool, steps: seq<Step>): bool {
    if steps == [] then failed
    else
      match steps[|steps| - 1]
      case ReadFailed => true
      case ReadCompleted(_) => false
      case RaiseChannelError => false
      case _ => LatestRead(failed, steps[..|steps| - 1])
  }

  function LatestWrite(failed: bool, steps: seq<Step>): bool {
    if steps == [] then failed
    else
      match steps[|steps| - 1]
      case WriteCompleted(_, ok) => !ok
      case RaiseChannelError => false
      case _ => LatestWrite(failed, steps[..|steps| - 1])
  }

  lemma {:induction false} RunPrefix(c: Config, s: State, steps: seq<Step>)
    requires s.CountersFit(c) && ValidRun(c, s, steps) && steps != []
    ensures var before := steps[..|steps| - 1];
            && ValidRun(c, s, before) && Enabled(c, Run(c, s, before), steps[|steps| - 1])
            && Run(c, s, steps) == Apply(c, Run(c, s, before), steps[|steps| - 1])
    decreases |steps|
  {
    hide Apply, Enabled;
    var before := steps[..|steps| - 1];
    if |steps| == 1 {
      assert before == [] && steps[1..] == [];
    } else {
      RunPrefix(c, Apply(c, s, steps[0]), steps[1..]);
      assert before[1..] == steps[1..][..|steps| - 2] && before[0] == steps[0];
    }
  }

  lemma StepErrors(c: Config, s: State, step: Step)
    requires s.CountersFit(c) && Enabled(c, s, step)
    ensures Apply(c, s, step).readError == LatestRead(s.readError, [step])
    ensures Apply(c, s, step).writeError == LatestWrite(s.writeError, [step])
  {
    hide Enabled, PrepareToWrite, NotifyFirstSent, DecodeFirst, StartOneWrite, CompleteWrite, LatestRead, LatestWrite;
    OneOperation(s.readError, s.writeError, step);
    OtherStepsKeepErrors(c, s, step);
  }

  lemma OneOperation(readFailed: bool, writeFailed: bool, step: Step)
    ensures LatestRead(readFailed, [step])
         == if step.ReadFailed? then true else if step.ReadCompleted? || step.RaiseChannelError? then false else readFailed
    ensures LatestWrite(writeFailed, [step])
         == if step.WriteCompleted? then !step.ok else if step.RaiseChannelError? then false else writeFailed
  {
    assert [step][..0] == [];
  }

  lemma OtherStepsKeepErrors(c: Config, s: State, step: Step)
    requires s.CountersFit(c) && Enabled(c, s, step)
    ensures !step.ReadFailed? && !step.ReadCompleted? && !step.RaiseChannelError? ==>
              Apply(c, s, step).readError == s.readError
    ensures !step.WriteCompleted? && !step.RaiseChannelError? ==> Apply(c, s, step).writeError == s.writeError
  {
    hide PrepareToWrite, ReplyTo, NotifyFirstSent, DecodeFirst, StartOneWrite, CompleteWrite;
  }

  /** The channel has an error exactly if its latest read, or its latest write, failed and
      that was not reported since: a later success takes an unreported error away. */
  lemma {:induction false} ErrorsAreTheLatest(c: Config, s: State, steps: seq<Step>)
    requires s.CountersFit(c) && ValidRun(c, s, steps)
    ensures Run(c, s, steps).readError == LatestRead(s.readError, steps)
    ensures Run(c, s, steps).writeError == LatestWrite(s.writeError, steps)
    decreases |steps|
  {
    hide Apply, Enabled;
    if steps != [] {
      var before, last := steps[..|steps| - 1], steps[|steps| - 1];
      RunPrefix(c, s, steps);
      ErrorsAreTheLatest(c, s, before);
      StepErrors(c, Run(c, s, before), last);
      assert [last][..0] == [];
    }
  }

  // ---- callbacks --------------------------------------------------------------------

  /** The first entry of the sent vector becomes an open request exactly if its name awaits a
      reply, and no other request changes. */
  lemma NotifyOpensIff(c: Config, s: State)
    requires s.CountersFit(c) && Enabled(c, s, ProcessOneSent)
    ensures var info, r := s.sentMessages[0], Apply(c, s, ProcessOneSent);
            && r.sentMessages == s.sentMessages[1..]
            && r.mesTimeouts == if AwaitsReply(c, info.name) then s.mesTimeouts[info.id := info.name] else s.mesTimeouts
  {
  }

  /** A decoded message reaches the handler exactly if it is no reply or its request is open
      and allows it; then that request is closed, and no other is touched in any case. */
  lemma DeliveredIff(c: Config, s: State, m: Message)
    requires s.CountersFit(c) && Enabled(c, s, DecodeOne)
    requires Taken(c.platform, c.catalog, s.inBuffer) == Some(Ok(m))
    ensures var r := Apply(c, s, DecodeOne);
            var accepted := m.rid == 0 || (m.rid in s.mesTimeouts && Allows(c, s.mesTimeouts[m.rid], m.name));
            && r.delivery == (if accepted then Some(Delivery(m, if c.useUniqueMessageId then NextId(c, s) else 0)) else None)
            && r.mesTimeouts == (if m.rid != 0 && accepted then s.mesTimeouts - {m.rid} else s.mesTimeouts)
            && (accepted <==> r.log.Then? && r.log.event == ArrivedCallback(m))
            && (m.rid != 0 && accepted ==>
                  r.log == Then(Then(s.log, ReplyClosed(m.rid, s.mesTimeouts[m.rid], m.name)), ArrivedCallback(m)))
  {
    hide Taken, AfterFirstFrame;
  }
}
