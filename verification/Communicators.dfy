/**
 The communicator as an object: each method changes the fields as the source does, and is
 proved to do what the step or phase of the same name says.
 */
module Communicators {
  import opened BasicDetail
  import opened BinCodec
  import opened BinMessages
  import opened CommCalls
  import opened CommHistories
  import opened CommOutboxes
  import opened CommPasses
  import opened CommStates
  import opened MessageDecoder
  import opened MessageIds
  import opened Optional
  import opened Sets

  class Communicator {
    const config: Config
    const inBuffer: ByteString
    var mesid: nat
    var queue: seq<PreparedMessage>
    var internalMid: nat
    var outBuffers: map<nat, PreparedMessage>
    var sentMessages: seq<SentMessageInfo>
    var mesTimeouts: map<nat, Name>
    var inBufferUpdated: bool
    var readError: bool
    var writeError: bool
    var justConnected: bool
    var sessionValid: bool
    ghost var writing: multiset<nat>
    ghost var delivery: Option<Delivery>
    ghost var midCalls: nat
    ghost var log: History

    ghost function State(): State
      reads this, inBuffer
    {
      CommStates.State.State(mesid, queue, internalMid, outBuffers, writing, sentMessages, mesTimeouts, inBuffer.text,
                             inBufferUpdated, readError, writeError, justConnected, sessionValid, delivery, midCalls, log)
    }

    ghost predicate Fits()
      reads this
    {
      mesid < config.IdModulus() && internalMid < config.IdModulus()
    }

    /** The object is in a state that some run leads to, and no handler is running. */
    ghost predicate Valid()
      reads this, inBuffer
    {
      Fits() && delivery.None? && INITIAL_STATE.CountersFit(config) && Reaches(config, INITIAL_STATE, State())
    }

    constructor (config: Config)
      ensures fresh(inBuffer) && this.config == config
      ensures Valid() && State() == INITIAL_STATE
    {
      this.config := config;
      inBuffer := new ByteString([]);
      mesid, queue, internalMid, outBuffers, sentMessages, mesTimeouts := UNDEFINED_MESSAGE_ID, [], 0, map[], [], map[];
      inBufferUpdated, readError, writeError, justConnected, sessionValid := false, false, false, false, false;
      writing, delivery, midCalls, log := multiset{}, None, 0, Start;
      new;
      StaysReached(config, INITIAL_STATE);
    }

    // ---- sending --------------------------------------------------------------------

    method NewMid() returns (mid: nat)
      requires Fits()
      modifies this`mesid, this`midCalls
      ensures State() == TakeMid(config, old(State())) && mid == mesid
    {
      mesid := Increment(mesid, config.IdModulus());
      if mesid == UNDEFINED_MESSAGE_ID {
        mesid := Increment(mesid, config.IdModulus());
      }
      midCalls := midCalls + 1;
      return mesid;
    }

    /** perform_encode: needs a session, serializes, escapes and adds the end marker. */
    method PerformEncode(m: Message, encodes: bool) returns (buffer: Option<seq<byte>>)
      ensures buffer == Encoded(config, State(), m, encodes)
    {
      hide Serialized, Frame;
      if !sessionValid || !encodes {
        return None;
      }
      var wire := new BinMessage(m.name);
      wire.id, wire.rid, wire.tail := m.id, m.rid, m.tail;
      var body := wire.Serialize(config.platform);
      if body.None? {
        return None;
      }
      var text := new ByteString(body.value);
      EncodeRawMessage(text);
      return Some(text.text);
    }

    method PushPreparedMessage(m: Message, buffer: seq<byte>)
      requires IsWireForm(buffer)
      modifies this`queue, this`log
      ensures State() == Push(old(State()), m, Some(buffer)) && queue != old(queue)
    {
      hide IsWireForm;
      var prepared := PreparedMessage(m.id, m.name, buffer);
      queue := queue + [prepared];
      log := Then(log, Accepted(prepared));
    }

    /** Throws when encoding does; an id that was given out stays used. */
    method PrepareToWrite(message: Message, encodes: bool) returns (threw: bool)
      requires Fits()
      modifies this`mesid, this`midCalls, this`queue, this`log
      ensures State() == CommStates.PrepareToWrite(config, old(State()), message, encodes)
      ensures threw <==> queue == old(queue)
    {
      hide Encoded, IsWireForm, TakeMid;
      var m := message;
      if config.useUniqueMessageId && !m.IdExists() {
        var mid := NewMid();
        m := m.(id := mid);
      }
      var buffer := PerformEncode(m, encodes);
      if buffer.None? {
        return true;
      }
      PushPreparedMessage(m, buffer.value);
      return false;
    }

    method Send(request: SendRequest) returns (threw: bool)
      requires Valid()
      modifies this`mesid, this`midCalls, this`queue, this`log
      ensures Valid() && State() == Apply(config, old(State()), Step.Send(request))
      ensures threw <==> queue == old(queue)
    {
      hide Reaches, CommStates.PrepareToWrite;
      threw := PrepareToWrite(request.message, request.encodes);
      ThenStepReaches(config, INITIAL_STATE, old(State()), Step.Send(request));
    }

    // ---- writing --------------------------------------------------------------------

    /** map::insert: an entry that is there already stays. */
    method OutBuffersInsert(m: PreparedMessage) returns (intMid: nat)
      requires Fits()
      modifies this`internalMid, this`outBuffers, this`log
      ensures Fits() && intMid == old(internalMid) && internalMid == Increment(intMid, config.IdModulus())
      ensures outBuffers == if intMid in old(outBuffers) then old(outBuffers) else old(outBuffers)[intMid := m]
      ensures log == Then(old(log), if intMid in old(outBuffers) then Lost(m) else Started(intMid, m))
    {
      intMid := internalMid;
      internalMid := Increment(internalMid, config.IdModulus());
      if intMid in outBuffers {
        log := Then(log, Lost(m));
      } else {
        outBuffers := outBuffers[intMid := m];
        log := Then(log, Started(intMid, m));
      }
    }

    method MtStartOneWrite(at: nat)
      requires Fits() && at < |queue|
      modifies this`queue, this`internalMid, this`outBuffers, this`writing, this`log
      ensures Fits() && State() == StartOneWrite(config, old(State()), at)
    {
      var m := queue[at];
      queue := queue[..at] + queue[at + 1..];
      var intMid := OutBuffersInsert(m);
      writing := writing + multiset{intMid};
    }

    method MtStartWrite(front: seq<PreparedMessage> -> nat, quota: nat)
      requires Fits()
      modifies this`queue, this`internalMid, this`outBuffers, this`writing, this`log
      ensures Fits() && State() == WritePass(config, old(State()), front, quota)
    {
      hide StartOneWrite, Pick;
      var left := quota;
      while queue != [] && left > 0
        invariant Fits()
        invariant WritePass(config, State(), front, left) == WritePass(config, old(State()), front, quota)
        decreases left
      {
        MtStartOneWrite(Pick(front, queue));
        left := left - 1;
      }
    }

    method MtReportWrite(error: bool, intMid: nat)
      modifies this`writeError, this`log
      ensures State() == old(State()).(writeError := error,
                                       log := Then(old(log), Completion(old(outBuffers), intMid, !error)))
    {
      hide Completion;
      writeError := error;
      log := Then(log, Completion(outBuffers, intMid, !error));
    }

    /** The lookup throws for an unknown id, which is swallowed. */
    method MtRegSentMessage(intMid: nat)
      modifies this`sentMessages
      ensures State() == old(State()).(sentMessages := old(sentMessages) + SentBy(old(outBuffers), intMid))
    {
      if intMid in outBuffers {
        sentMessages := sentMessages + [SentInfo(intMid, outBuffers[intMid])];
      }
    }

    method MtOutBuffersErase(intMid: nat)
      modifies this`outBuffers, this`writing
      ensures State() == old(State()).(outBuffers := old(outBuffers) - {intMid}, writing := old(writing) - multiset{intMid})
    {
      outBuffers := outBuffers - {intMid};
      writing := writing - multiset{intMid};
    }

    method MtCompleteWrite(error: bool, intMid: nat)
      requires intMid in writing
      modifies this`writeError, this`sentMessages, this`outBuffers, this`writing, this`log
      ensures State() == CompleteWrite(old(State()), intMid, !error)
    {
      hide Completion, SentBy;
      MtReportWrite(error, intMid);
      if !error {
        MtRegSentMessage(intMid);
      }
      MtOutBuffersErase(intMid);
    }

    method MtAsioWriteHandler(error: bool, intMid: nat)
      requires Valid() && intMid in writing
      modifies this`writeError, this`sentMessages, this`outBuffers, this`writing, this`log
      ensures Valid() && State() == Apply(config, old(State()), WriteCompleted(intMid, !error))
    {
      hide Reaches, CompleteWrite;
      MtCompleteWrite(error, intMid);
      ThenStepReaches(config, INITIAL_STATE, old(State()), WriteCompleted(intMid, !error));
    }

    // ---- reading --------------------------------------------------------------------

    method MtAsioReadHandler(error: bool, chunk: seq<byte>)
      requires Valid()
      modifies this`readError, this`inBufferUpdated, inBuffer
      ensures Valid() && State() == Apply(config, old(State()), if error then ReadFailed else ReadCompleted(chunk))
    {
      hide Reaches;
      readError := error;
      if !error {
        inBuffer.text := inBuffer.text + chunk;
        inBufferUpdated := true;
      }
      ThenStepReaches(config, INITIAL_STATE, old(State()), if error then ReadFailed else ReadCompleted(chunk));
    }

    // ---- callbacks ------------------------------------------------------------------

    /** The user's callback, which may send, and its answer if it was asked for one. */
    method CallUser(user: User, made: seq<Callback>, callback: Callback) returns (calls: seq<Callback>, threw: bool)
      requires Fits()
      modifies this`mesid, this`midCalls, this`queue, this`log
      ensures Fits() && Pass(State(), calls, threw) == Call(config, old(State()), user, made, callback)
    {
      var requests := user(|made|, callback).sends;
      var i := 0;
      assert requests[0..] == requests;
      while i < |requests|
        invariant 0 <= i <= |requests| && Fits()
        invariant SendAll(config, State(), requests[i..]) == SendAll(config, old(State()), requests)
      {
        assert requests[i..][1..] == requests[i + 1..];
        var _ := PrepareToWrite(requests[i].message, requests[i].encodes);
        i := i + 1;
      }
      return made + [callback], user(|made|, callback).throws;
    }

    // ---- phases of mt_process -------------------------------------------------------

    method ProcessConnect(env: Surroundings) returns (calls: seq<Callback>, threw: bool)
      requires Fits()
      modifies this`justConnected, this`sessionValid, this`mesid, this`midCalls, this`queue, this`log
      ensures Fits() && Pass(State(), calls, threw) == ConnectPass(config, old(State()), env)
    {
      calls, threw := [], false;
      if justConnected {
        justConnected := false;
        if !sessionValid {
          if !env.sessionCreated {
            return [], true;
          }
          sessionValid := true;
        }
        calls, threw := CallUser(env.user, [], OnConnected);
      }
    }

    method RegMessageTimeout(mid: nat, name: Name)
      modifies this`mesTimeouts, this`log
      ensures State() == CommStates.RegMessageTimeout(old(State()), mid, name)
    {
      log := Then(log, if mid in mesTimeouts then Reopened(mid, name) else Opened(mid, name));
      mesTimeouts := mesTimeouts[mid := name];
    }

    /** Opens the first entry's request if it waits for a reply, and removes the entry. */
    method MtUnregFirstSent() returns (info: SentMessageInfo)
      requires sentMessages != []
      modifies this`sentMessages, this`mesTimeouts, this`log
      ensures info == old(sentMessages[0]) && State() == NotifyFirstSent(config, old(State()))
    {
      info := sentMessages[0];
      if config.timeoutsEnabled && config.NeedReply(info.name) {
        RegMessageTimeout(info.id, info.name);
      }
      sentMessages := sentMessages[1..];
      log := Then(log, SentCallback(info));
    }

    method MtProcessSent(user: User, made: seq<Callback>) returns (calls: seq<Callback>, threw: bool)
      requires Fits()
      modifies this`sentMessages, this`mesTimeouts, this`mesid, this`midCalls, this`queue, this`log
      ensures Fits() && Pass(State(), calls, threw) == SentPass(config, old(State()), user, made)
    {
      hide NotifyFirstSent, Call;
      calls, threw := made, false;
      while sentMessages != [] && !threw
        invariant Fits()
        invariant (if threw then Pass(State(), calls, true) else SentPass(config, State(), user, calls))
               == SentPass(config, old(State()), user, made)
        decreases |sentMessages|
      {
        var info := MtUnregFirstSent();
        calls, threw := CallUser(user, calls, OnSent(info.id));
      }
    }

    /** Gives the message to the user's handler and queues its answer. */
    method MtDeliver(m: Message, outId: nat, user: User, made: seq<Callback>) returns (calls: seq<Callback>, threw: bool)
      requires Fits() && delivery == Some(Delivery(m, outId))
      modifies this`mesid, this`midCalls, this`queue, this`delivery, this`log
      ensures Fits() && Pass(State(), calls, threw) == Deliver(config, old(State()), user, made)
    {
      hide Call, CommStates.PrepareToWrite;
      calls, threw := CallUser(user, made, OnArrived(m, outId));
      delivery := None;
      var reply := user(|made|, OnArrived(m, outId)).reply;
      if !threw && reply.Some? {
        threw := PrepareToWrite(ReplyTo(config, Delivery(m, outId), reply.value.message), reply.value.encodes);
      }
    }

    method ProcessReceived(m: Message, user: User, made: seq<Callback>) returns (calls: seq<Callback>, threw: bool)
      requires Fits()
      modifies this`mesid, this`midCalls, this`queue, this`delivery, this`log
      ensures Fits() && Pass(State(), calls, threw) ==
                        Deliver(config, CommStates.ProcessReceived(config, old(State()), m), user, made)
    {
      hide TakeMid, Deliver;
      var outId := UNDEFINED_MESSAGE_ID;
      if config.useUniqueMessageId {
        outId := NewMid();
      }
      delivery := Some(Delivery(m, outId));
      log := Then(log, ArrivedCallback(m));
      calls, threw := MtDeliver(m, outId, user, made);
    }

    method ProcessIncoming(m: Message, user: User, made: seq<Callback>) returns (calls: seq<Callback>, threw: bool)
      requires Fits() && delivery.None?
      modifies this`mesid, this`midCalls, this`queue, this`mesTimeouts, this`delivery, this`log
      ensures Fits() && Pass(State(), calls, threw) ==
                        Finish(config, CommStates.ProcessIncoming(config, old(State()), m), user, made,
                               Rejected(config, old(State()), Some(Ok(m))))
    {
      if !m.RidExists() {
        calls, threw := ProcessReceived(m, user, made);
      } else if m.rid in mesTimeouts {
        var request := mesTimeouts[m.rid];
        if !config.IsAllowedReply(request, m.name) {
          log := Then(log, ReplyDisallowed(m.rid, request, m.name));
          return made, true;
        }
        mesTimeouts := mesTimeouts - {m.rid};
        log := Then(log, ReplyClosed(m.rid, request, m.name));
        assert State() == CloseByReply(old(State()), m);
        calls, threw := ProcessReceived(m, user, made);
      } else {
        log := Then(log, ReplyUnregistered(m.rid));
        return made, false;
      }
    }

    method MtProcessArrived(user: User, made: seq<Callback>, quota: nat) returns (calls: seq<Callback>, threw: bool)
      requires Fits() && delivery.None? && sessionValid
      modifies this`mesid, this`midCalls, this`queue, this`mesTimeouts, this`inBufferUpdated, this`delivery, this`log, inBuffer
      ensures Fits() && Pass(State(), calls, threw) == ArrivedPass(config, old(State()), user, made, quota)
    {
      hide ArrivedOne;
      calls, threw := made, false;
      var left := quota;
      while inBufferUpdated && left > 0 && !threw
        invariant Fits() && delivery.None?
        invariant (if threw then Pass(State(), calls, true) else ArrivedPass(config, State(), user, calls, left))
               == ArrivedPass(config, old(State()), user, made, quota)
        decreases left
      {
        calls, threw := MtDecodeOne(user, calls);
        left := left - 1;
      }
    }

    method MtDecodeOne(user: User, made: seq<Callback>) returns (calls: seq<Callback>, threw: bool)
      requires Fits() && delivery.None?
      modifies this`mesid, this`midCalls, this`queue, this`mesTimeouts, this`inBufferUpdated, this`delivery, this`log, inBuffer
      ensures Fits() && delivery.None? && Pass(State(), calls, threw) == ArrivedOne(config, old(State()), user, made)
    {
      hide Taken, CommStates.ProcessIncoming, AfterFirstFrame;
      var taken := PerformDecode(config.platform, config.catalog, inBuffer);
      match taken {
        case None =>
          inBufferUpdated := false;
          return made, false;
        case Some(Throws(e)) =>
          log := Then(log, FrameRejected(e));
          return made, true;
        case Some(Ok(m)) =>
          assert State() == Cut(old(State()));
          calls, threw := ProcessIncoming(m, user, made);
      }
    }

    method ProcessTimeouts(elapsed: nat -> bool, user: User, made: seq<Callback>) returns (calls: seq<Callback>, threw: bool)
      requires Fits()
      modifies this`mesTimeouts, this`mesid, this`midCalls, this`queue, this`log
      ensures Fits() && Pass(State(), calls, threw) ==
                        TimeoutPass(config, old(State()), old(mesTimeouts.Keys), elapsed, user, made)
    {
      hide Call, IsLeast;
      calls, threw := made, false;
      var todo := mesTimeouts.Keys;
      while todo != {} && !threw
        invariant Fits() && (!threw ==> todo <= mesTimeouts.Keys)
        invariant (if threw then Pass(State(), calls, true) else TimeoutPass(config, State(), todo, elapsed, user, calls))
               == TimeoutPass(config, old(State()), old(mesTimeouts.Keys), elapsed, user, made)
        decreases |todo|
      {
        ghost var before := State();
        var mid := LeastOf(todo);
        assert mid in todo by { LeastIsIn(todo); }
        todo := todo - {mid};
        if elapsed(mid) {
          mesTimeouts := mesTimeouts - {mid};
          log := Then(log, TimeoutCallback(mid));
          assert State() == TimedOut(before, mid);
          calls, threw := CallUser(user, calls, OnTimeout(mid));
        }
      }
    }

    method MtHandleChError() returns (threw: bool)
      modifies this`readError, this`writeError
      ensures Pass(State(), [], threw) == ErrorPass(old(State()), [])
    {
      threw := if readError then readError else writeError;
      readError, writeError := false, false;
    }

    /** `owned` is the outcome of try_lock. */
    method MtProcess(env: Surroundings, owned: bool) returns (calls: seq<Callback>, threw: bool)
      requires Valid()
      modifies this, inBuffer
      ensures Valid()
      ensures Pass(State(), calls, threw) ==
              if owned then CommPasses.MtProcess(config, old(State()), env) else Pass(old(State()), [], false)
      ensures InOrder(calls) && NoticesIn(log) == old(NoticesIn(log)) + HeardIn(calls)
    {
      hide NoticesIn, InOrder;
      if !owned {
        NothingIsCalled(log);
        return [], false;
      }
      MtProcessIsRun(config, old(State()), env);
      ReachesOn(config, INITIAL_STATE, old(State()), CommPasses.MtProcess(config, old(State()), env).s);
      CallbacksAreTheHistory(config, old(State()), env);
      CallbacksComeInPhases(config, old(State()), env);
      calls, threw := ProcessConnect(env);
      if threw {
        return;
      }
      if sentMessages != [] {
        calls, threw := MtProcessSent(env.user, calls);
        if threw {
          return;
        }
      }
      if inBuffer.text != [] {
        if inBufferUpdated && sessionValid {
          calls, threw := MtProcessArrived(env.user, calls, env.incomingQuota);
          if threw {
            return;
          }
        }
      }
      calls, threw := MtFinishProcess(env, calls);
    }

    method MtFinishProcess(env: Surroundings, made: seq<Callback>) returns (calls: seq<Callback>, threw: bool)
      requires Fits() && delivery.None?
      modifies this
      ensures Fits() && Pass(State(), calls, threw) == FinishProcess(config, old(State()), env, made)
    {
      calls := made;
      if queue != [] {
        MtStartWrite(env.front, env.outgoingQuota);
      }
      if config.timeoutsEnabled {
        calls, threw := ProcessTimeouts(env.elapsed, env.user, calls);
        if threw {
          return;
        }
      }
      threw := MtHandleChError();
      if threw {
        return;
      }
      if sessionValid {
        calls, threw := CallUser(env.user, calls, OnProcessed);
      }
    }
  }

  /** Whatever was called on it, and whatever its handlers threw: the object's open requests
      and untold writes are those its history leaves, the history keeps to the rules, and
      every message that was accepted is accounted for. */
  lemma ObjectsKeepToTheRules(comm: Communicator, p: Tag -> bool)
    requires comm.Valid()
    ensures Consistent(comm.config, comm.State()) && Conserved(comm.State(), p)
    ensures SentCallbacks(comm.log) + comm.sentMessages == Completions(comm.log)
  {
    var steps: seq<Step> :| ValidRun(comm.config, INITIAL_STATE, steps) && Run(comm.config, INITIAL_STATE, steps) == comm.State();
    RunsAreLegal(comm.config, INITIAL_STATE, steps);
    assert InFlight(INITIAL_STATE.outBuffers, p) == {};
    RunsConserve(comm.config, INITIAL_STATE, steps, p);
    SentCallbacksFollowCompletions(comm.config, comm.log);
  }
}
