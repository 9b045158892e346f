/**
 The life of a message inside one communicator, as a state and the atomic steps on it.
 Steps are small enough that every interleaving of the dispatcher thread, user handlers,
 other senders and the asio completions is a sequence of them.
 */
module CommStates {
  import opened BasicDetail
  import opened BinMessages
  import opened Helper
  import opened MessageDecoder
  import opened MessageIds
  import opened Optional

  /** What the configuration says about a message name. */
  datatype MessageInfo = MessageInfo(needReply: bool, answers: set<Name>)

  datatype Config = Config(
    platform: Platform,
    messages: map<Name, MessageInfo>,
    catalog: Catalog,
    useUniqueMessageId: bool,
    timeoutsEnabled: bool)
  {
    /** mes_info: a name that was not configured needs no reply and restricts no answer. */
    function MesInfo(name: Name): MessageInfo {
      if name in messages then messages[name] else MessageInfo(false, {})
    }

    predicate NeedReply(name: Name) {
      MesInfo(name).needReply
    }

    predicate IsAllowedReply(request: Name, reply: Name) {
      MesInfo(request).answers == {} || reply in MesInfo(request).answers
    }

    /** Number of values of messageid_type. */
    function IdModulus(): (n: nat)
      ensures n > 1
    {
      Pow256(platform.idWidth)
    }
  }

  datatype PreparedMessage = PreparedMessage(id: nat, name: Name, outBuffer: seq<byte>)

  datatype SentMessageInfo = SentMessageInfo(intId: nat, id: nat, name: Name)

  /** A message in a user's arrived handler, and the id set aside for its reply. */
  datatype Delivery = Delivery(message: Message, outId: nat)

  /** What happened, in order.  Not in the program: the theorems talk about it. */
  datatype Event =
    | Accepted(m: PreparedMessage)
    | Started(intId: nat, m: PreparedMessage)
    | Lost(m: PreparedMessage)
    | Completed(info: SentMessageInfo)
    | Failed(intId: nat, m: PreparedMessage)
    | Unmatched(intId: nat)
    | Opened(mid: nat, name: Name)
    | Reopened(mid: nat, name: Name)
    | SentCallback(info: SentMessageInfo)
    | TimeoutCallback(mid: nat)
    | ReplyClosed(mid: nat, request: Name, reply: Name)
    | ReplyDisallowed(mid: nat, request: Name, reply: Name)
    | ReplyUnregistered(mid: nat)
    | ArrivedCallback(message: Message)
    | FrameRejected(error: DecodeError)

  /** Everything that happened so far, the latest event outermost. */
  datatype History = Start | Then(past: History, event: Event)

  /** `writing` are the internal ids of the asynchronous writes that have not completed;
      `midCalls` and `log` record the past. */
  datatype State = State(
    mesid: nat,
    queue: seq<PreparedMessage>,
    internalMid: nat,
    outBuffers: map<nat, PreparedMessage>,
    writing: multiset<nat>,
    sentMessages: seq<SentMessageInfo>,
    mesTimeouts: map<nat, Name>,
    inBuffer: seq<byte>,
    inBufferUpdated: bool,
    readError: bool,
    writeError: bool,
    justConnected: bool,
    sessionValid: bool,
    delivery: Option<Delivery>,
    midCalls: nat,
    log: History)
  {
    predicate CountersFit(c: Config) {
      mesid < c.IdModulus() && internalMid < c.IdModulus()
    }
  }

  /** A call of send: the message, and whether the user's serialize returns. */
  datatype SendRequest = SendRequest(message: Message, encodes: bool)

  datatype Step =
    | SocketConnected
    | ProcessConnect(sessionCreated: bool)
    | Send(request: SendRequest)
    | StartWrite(front: nat)
    | WriteCompleted(intId: nat, ok: bool)
    | ReadCompleted(chunk: seq<byte>)
    | ReadFailed
    | ProcessOneSent
    | DecodeOne
    | HandlerReturns(out: Option<SendRequest>)
    | HandlerThrows
    | ProcessOneTimeout(mid: nat)
    | RaiseChannelError

  const INITIAL_STATE: State := State(
    UNDEFINED_MESSAGE_ID, [], 0, map[], multiset{}, [], map[], [], false, false, false, false, false, None, 0, Start)

  /** Steps that may put a message into the queue, and steps of a write. */
  predicate IsSending(step: Step) {
    step.Send? || step.HandlerReturns?
  }

  predicate IsWriting(step: Step) {
    step.StartWrite? || step.WriteCompleted?
  }

  // ---- the pieces of the steps ------------------------------------------------------

  function TakeMid(c: Config, s: State): (r: State)
    requires s.CountersFit(c)
    ensures s.midCalls <= r.midCalls
    ensures r.CountersFit(c) && r.mesid != UNDEFINED_MESSAGE_ID
    ensures r == s.(mesid := r.mesid, midCalls := s.midCalls + 1)
  {
    s.(mesid := NewMid(s.mesid, c.IdModulus()), midCalls := s.midCalls + 1)
  }

  ghost predicate IsWireForm(buffer: seq<byte>) {
    exists body: seq<byte> :: buffer == Frame(body)
  }

  /** perform_encode: the wire form, or None where it throws. */
  function Encoded(c: Config, s: State, m: Message, encodes: bool): (r: Option<seq<byte>>)
    ensures r.Some? ==> IsWireForm(r.value)
  {
    if !s.sessionValid || !encodes then None
    else
      match Serialized(c.platform, m)
      case None => None
      case Some(body) => Some(Frame(body))
  }

  /** push_prepeared_message, unless encoding threw. */
  function Push(s: State, m: Message, buffer: Option<seq<byte>>): (r: State)
    requires buffer.Some? ==> IsWireForm(buffer.value)
    ensures r == s.(queue := r.queue, log := r.log)
    ensures r.queue == s.queue || (|r.queue| == |s.queue| + 1 && IsWireForm(r.queue[|s.queue|].outBuffer))
  {
    match buffer
    case None => s
    case Some(bytes) =>
      var prepared := PreparedMessage(m.id, m.name, bytes);
      s.(queue := s.queue + [prepared], log := Then(s.log, Accepted(prepared)))
  }

  /** prepare_to_write: gives the message an id if it has none, encodes and queues it. */
  function PrepareToWrite(c: Config, s: State, m: Message, encodes: bool): (r: State)
    requires s.CountersFit(c)
    ensures s.midCalls <= r.midCalls
    ensures r.CountersFit(c)
    ensures r == s.(mesid := r.mesid, midCalls := r.midCalls, queue := r.queue, log := r.log)
  {
    var s1 := if c.useUniqueMessageId && !m.IdExists() then TakeMid(c, s) else s;
    var m1 := if c.useUniqueMessageId && !m.IdExists() then m.(id := s1.mesid) else m;
    Push(s1, m1, Encoded(c, s1, m1, encodes))
  }

  /** The message a user handler returns as the answer to `d`. */
  function ReplyTo(c: Config, d: Delivery, out: Message): Message {
    var withId := if c.useUniqueMessageId && !out.IdExists() then out.(id := d.outId) else out;
    withId.(rid := d.message.id)
  }

  function ProcessReceived(c: Config, s: State, m: Message): (r: State)
    requires s.CountersFit(c)
    ensures s.midCalls <= r.midCalls
    ensures r.CountersFit(c)
    ensures r == s.(mesid := r.mesid, midCalls := r.midCalls, delivery := r.delivery, log := r.log)
    ensures r.log == Then(s.log, ArrivedCallback(m))
  {
    var s1 := if c.useUniqueMessageId then TakeMid(c, s) else s;
    s1.(delivery := Some(Delivery(m, if c.useUniqueMessageId then s1.mesid else UNDEFINED_MESSAGE_ID)),
        log := Then(s1.log, ArrivedCallback(m)))
  }

  function CloseByReply(s: State, m: Message): State
    requires m.rid in s.mesTimeouts
  {
    s.(mesTimeouts := s.mesTimeouts - {m.rid}, log := Then(s.log, ReplyClosed(m.rid, s.mesTimeouts[m.rid], m.name)))
  }

  function ProcessReply(c: Config, s: State, m: Message): (r: State)
    requires s.CountersFit(c)
    ensures s.midCalls <= r.midCalls
    ensures r.CountersFit(c)
    ensures r == s.(mesid := r.mesid, midCalls := r.midCalls, mesTimeouts := r.mesTimeouts,
                    delivery := r.delivery, log := r.log)
  {
    if m.rid !in s.mesTimeouts then
      s.(log := Then(s.log, ReplyUnregistered(m.rid)))
    else if !c.IsAllowedReply(s.mesTimeouts[m.rid], m.name) then
      s.(log := Then(s.log, ReplyDisallowed(m.rid, s.mesTimeouts[m.rid], m.name)))
    else
      ProcessReceived(c, CloseByReply(s, m), m)
  }

  function ProcessIncoming(c: Config, s: State, m: Message): (r: State)
    requires s.CountersFit(c)
    ensures s.midCalls <= r.midCalls
    ensures r.CountersFit(c)
    ensures r == s.(mesid := r.mesid, midCalls := r.midCalls, mesTimeouts := r.mesTimeouts,
                    delivery := r.delivery, log := r.log)
  {
    if m.RidExists() then ProcessReply(c, s, m) else ProcessReceived(c, s, m)
  }

  /** One pass of the decode loop, after the decoder has returned or thrown. */
  function ReactTo(c: Config, s: State, taken: Option<Result<Message>>): (r: State)
    requires s.CountersFit(c)
    ensures s.midCalls <= r.midCalls
    ensures r.CountersFit(c)
    ensures r == s.(mesid := r.mesid, midCalls := r.midCalls, mesTimeouts := r.mesTimeouts,
                    inBufferUpdated := r.inBufferUpdated, delivery := r.delivery, log := r.log)
  {
    match taken
    case None => s.(inBufferUpdated := false)
    case Some(Throws(e)) => s.(log := Then(s.log, FrameRejected(e)))
    case Some(Ok(m)) => ProcessIncoming(c, s, m)
  }

  function Cut(s: State): State {
    s.(inBuffer := AfterFirstFrame(s.inBuffer))
  }

  function DecodeFirst(c: Config, s: State): (r: State)
    requires s.CountersFit(c)
    ensures s.midCalls <= r.midCalls
    ensures r.CountersFit(c)
    ensures r == s.(mesid := r.mesid, midCalls := r.midCalls, mesTimeouts := r.mesTimeouts,
                    inBuffer := AfterFirstFrame(s.inBuffer), inBufferUpdated := r.inBufferUpdated,
                    delivery := r.delivery, log := r.log)
  {
    ReactTo(c, Cut(s), Taken(c.platform, c.catalog, s.inBuffer))
  }

  function RegMessageTimeout(s: State, mid: nat, name: Name): State {
    s.(mesTimeouts := s.mesTimeouts[mid := name],
       log := Then(s.log, if mid in s.mesTimeouts then Reopened(mid, name) else Opened(mid, name)))
  }

  function TimedOut(s: State, mid: nat): State {
    s.(mesTimeouts := s.mesTimeouts - {mid}, log := Then(s.log, TimeoutCallback(mid)))
  }

  /** The first entry of the sent vector: open the request, drop the entry, tell the user. */
  function NotifyFirstSent(c: Config, s: State): (r: State)
    requires s.sentMessages != []
    ensures r == s.(mesTimeouts := r.mesTimeouts, sentMessages := s.sentMessages[1..], log := r.log)
    ensures var info := s.sentMessages[0];
            if c.timeoutsEnabled && info.name in c.messages && c.messages[info.name].needReply
            then info.id in r.mesTimeouts && r.mesTimeouts[info.id] == info.name
            else r.mesTimeouts == s.mesTimeouts
  {
    var info := s.sentMessages[0];
    var s1 := if c.timeoutsEnabled && c.NeedReply(info.name) then RegMessageTimeout(s, info.id, info.name) else s;
    s1.(sentMessages := s1.sentMessages[1..], log := Then(s1.log, SentCallback(info)))
  }

  function Dequeue(s: State, front: nat): State
    requires front < |s.queue|
  {
    s.(queue := s.queue[..front] + s.queue[front + 1..])
  }

  /** One message leaves the queue: an entry under the next internal id, which map::insert
      makes only if there is none yet, and an asynchronous write with that id. */
  function StartOneWrite(c: Config, s: State, front: nat): (r: State)
    requires s.CountersFit(c) && front < |s.queue|
    ensures r.CountersFit(c)
    ensures r == s.(queue := r.queue, internalMid := r.internalMid, outBuffers := r.outBuffers, writing := r.writing,
                    log := r.log)
  {
    var m, id := s.queue[front], s.internalMid;
    var s1 := Dequeue(s, front).(internalMid := Increment(id, c.IdModulus()), writing := s.writing + multiset{id});
    if id in s.outBuffers then s1.(log := Then(s1.log, Lost(m)))
    else s1.(outBuffers := s.outBuffers[id := m], log := Then(s1.log, Started(id, m)))
  }

  function SentInfo(intId: nat, m: PreparedMessage): SentMessageInfo {
    SentMessageInfo(intId, m.id, m.name)
  }

  /** How the write under an id ended: the completion finds an entry, or swallows its absence. */
  function Completion(outBuffers: map<nat, PreparedMessage>, id: nat, ok: bool): Event {
    if id !in outBuffers then Unmatched(id)
    else if ok then Completed(SentInfo(id, outBuffers[id]))
    else Failed(id, outBuffers[id])
  }

  function SentBy(outBuffers: map<nat, PreparedMessage>, id: nat): seq<SentMessageInfo> {
    if id in outBuffers then [SentInfo(id, outBuffers[id])] else []
  }

  function CompleteWrite(s: State, id: nat, ok: bool): (r: State)
    requires id in s.writing
    ensures r == s.(outBuffers := s.outBuffers - {id}, writing := s.writing - multiset{id}, writeError := !ok,
                    sentMessages := r.sentMessages, log := r.log)
  {
    s.(writeError := !ok, writing := s.writing - multiset{id}, outBuffers := s.outBuffers - {id},
       sentMessages := if ok then s.sentMessages + SentBy(s.outBuffers, id) else s.sentMessages,
       log := Then(s.log, Completion(s.outBuffers, id, ok)))
  }

  // ---- steps and runs ---------------------------------------------------------------

  /** mt_process works on a communicator alone, so its steps wait for a handler it called. */
  predicate Enabled(c: Config, s: State, step: Step) {
    match step
    case SocketConnected => true
    case ProcessConnect(_) => s.justConnected && s.delivery.None?
    case Send(_) => true
    case StartWrite(front) => front < |s.queue| && s.delivery.None?
    case WriteCompleted(intId, _) => intId in s.writing
    case ReadCompleted(_) => true
    case ReadFailed => true
    case ProcessOneSent => s.sentMessages != [] && s.delivery.None?
    case DecodeOne => s.inBufferUpdated && s.sessionValid && s.delivery.None?
    case HandlerReturns(_) => s.delivery.Some?
    case HandlerThrows => s.delivery.Some?
    case ProcessOneTimeout(mid) => c.timeoutsEnabled && mid in s.mesTimeouts && s.delivery.None?
    case RaiseChannelError => (s.readError || s.writeError) && s.delivery.None?
  }

  function Apply(c: Config, s: State, step: Step): (r: State)
    requires s.CountersFit(c) && Enabled(c, s, step)
    ensures s.midCalls <= r.midCalls
    ensures r.CountersFit(c)
    ensures !step.StartWrite? && !step.WriteCompleted? ==>
              r.internalMid == s.internalMid && r.writing == s.writing && r.outBuffers == s.outBuffers
    ensures !step.Send? && !step.HandlerReturns? && !step.DecodeOne? ==>
              r.mesid == s.mesid && r.midCalls == s.midCalls && (r.delivery.None? || r.delivery == s.delivery)
    ensures !step.Send? && !step.HandlerReturns? && !step.StartWrite? ==> r.queue == s.queue
    ensures !step.DecodeOne? ==> r.inBuffer == if step.ReadCompleted? then s.inBuffer + step.chunk else s.inBuffer
  {
    match step
    case SocketConnected => s.(justConnected := true)
    case ProcessConnect(created) => s.(justConnected := false, sessionValid := s.sessionValid || created)
    case Send(request) => PrepareToWrite(c, s, request.message, request.encodes)
    case StartWrite(front) => StartOneWrite(c, s, front)
    case WriteCompleted(intId, ok) => CompleteWrite(s, intId, ok)
    case ReadCompleted(chunk) => s.(inBuffer := s.inBuffer + chunk, inBufferUpdated := true, readError := false)
    case ReadFailed => s.(readError := true)
    case ProcessOneSent => NotifyFirstSent(c, s)
    case DecodeOne => DecodeFirst(c, s)
    case HandlerReturns(out) =>
      var s1 := s.(delivery := None);
      (match out
       case None => s1
       case Some(request) => PrepareToWrite(c, s1, ReplyTo(c, s.delivery.value, request.message), request.encodes))
    case HandlerThrows => s.(delivery := None)
    case ProcessOneTimeout(mid) => TimedOut(s, mid)
    case RaiseChannelError => s.(readError := false, writeError := false)
  }

  /** The two ways into the queue. */
  lemma SendingIs(c: Config, s: State, step: Step)
    requires s.CountersFit(c) && Enabled(c, s, step) && IsSending(step)
    ensures match step
            case Send(request) => Apply(c, s, step) == PrepareToWrite(c, s, request.message, request.encodes)
            case HandlerReturns(None) => Apply(c, s, step) == s.(delivery := None)
            case HandlerReturns(Some(request)) =>
              s.delivery.Some?
              && Apply(c, s, step) ==
                 PrepareToWrite(c, s.(delivery := None), ReplyTo(c, s.delivery.value, request.message), request.encodes)
            case _ => true
  {
    hide PrepareToWrite, ReplyTo;
  }

  /** What mt_process does by itself, and the steps that touch no message at all. */
  lemma ProcessingIs(c: Config, s: State, step: Step)
    requires s.CountersFit(c) && Enabled(c, s, step) && !IsSending(step) && !IsWriting(step)
    ensures match step
            case ProcessOneSent => s.sentMessages != [] && Apply(c, s, step) == NotifyFirstSent(c, s)
            case DecodeOne => Apply(c, s, step) == ReactTo(c, Cut(s), Taken(c.platform, c.catalog, s.inBuffer))
            case ProcessOneTimeout(mid) => Apply(c, s, step) == TimedOut(s, mid)
            case _ => var r := Apply(c, s, step);
                      && r.log == s.log && r.sentMessages == s.sentMessages && r.mesTimeouts == s.mesTimeouts
                      && r.queue == s.queue && r.outBuffers == s.outBuffers
  {
    hide NotifyFirstSent, ReactTo, Cut, Taken, TimedOut;
  }

  ghost predicate ValidRun(c: Config, s: State, steps: seq<Step>)
    requires s.CountersFit(c)
    decreases |steps|
  {
    steps == [] || (Enabled(c, s, steps[0]) && ValidRun(c, Apply(c, s, steps[0]), steps[1..]))
  }

  function Run(c: Config, s: State, steps: seq<Step>): (r: State)
    requires s.CountersFit(c) && ValidRun(c, s, steps)
    ensures s.midCalls <= r.midCalls
    ensures r.CountersFit(c)
    decreases |steps|
  {
    if steps == [] then s else Run(c, Apply(c, s, steps[0]), steps[1..])
  }

  lemma {:induction false} RunAppend(c: Config, s: State, a: seq<Step>, b: seq<Step>)
    requires s.CountersFit(c) && ValidRun(c, s, a) && ValidRun(c, Run(c, s, a), b)
    ensures ValidRun(c, s, a + b) && Run(c, s, a + b) == Run(c, Run(c, s, a), b)
    decreases |a|
  {
    hide Apply, Enabled;
    if a == [] {
      assert a + b == b;
    } else {
      assert (a + b)[0] == a[0] && (a + b)[1..] == a[1..] + b;
      var next := Apply(c, s, a[0]);
      assert Run(c, s, a) == Run(c, next, a[1..]);
      RunAppend(c, next, a[1..], b);
    }
  }
}
