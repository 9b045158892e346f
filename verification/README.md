# Verified model of the unicomm library

unicomm joins two processes by typed messages over one TCP connection.  A *communicator*
owns the connection: it gives messages their ids, encodes and queues them, starts the
writes, cuts incoming bytes into frames, matches replies to requests and calls the user's
session.  A *dispatcher* lets any number of threads sweep over the communicators and wakes
them when there is work.  This project states what that machinery does, as Dafny functions
over values and as classes with the fields the C++ objects have, and proves what it is for.

## The parts

**The binary wire format** (`BasicDetail`, `BinCodec`, `Helper`, `BinMessages`,
`MessageDecoder`).  The escape and unescape loops edit a string in place.  A serialized
message is a header with length, flags, name and little-endian ids; a frame is the escaped
message and an end marker.  The main result is `AnyChunkingReassembles`: however the bytes
of a list of frames are cut into chunks, the same list comes out.  The bytes themselves are
pinned as literals (`EncodeRawMessage`, `SerializedLayout`), for reading also on texts that no
encoder writes (`DecodeFlipsAnyPair`, `ReadTextPrintsBackIff`).

**The communicator** (`CommStates` to `Communicators`).  `CommStates` is the state and the
atomic steps on it: send, start a write, complete a write, receive bytes, decode a frame,
return from a handler or throw out of it, notify a sent message, time a request out.  Each
step appends events to a history, which exists only for the theorems.  `CommHistories` gives
the rules every history keeps to, `CommOutboxes` accounts for each accepted message,
`CommIds` adds what unique ids give.  `CommPasses` composes the steps into the phases of
`mt_process`, with user callbacks that may send, answer or throw, and shows that a call is a
run of steps; `CommPhases` says what a phase achieves.  `Communicators` is the class whose
methods change the fields as the source does; each is proved equal to its step or phase.
`MessageIds` is the id counter.

What the steps and calls are *for* is said without naming their pieces.  `CommEffects`: which
message is queued for which call of send and which answer, when a request is opened, when a
message is handed to the user.  `CommCalls`: the callbacks that a call of `mt_process` makes
are the history's, in the order of the phases.  `CommDuties`: requests are open before their
replies are looked at, so that a reply is delivered by the call that opens its request.
`CommFailures`: a call throws exactly for a reason.  `CommQueues`: answers leave in the call
that gives them.

**Two peers** (`Peers`, `PeerStreams`, `Exchanges`).  Two communicators joined by two byte streams, with
all steps interleaved freely and the network cutting the streams anywhere.  The results are
that a reply that reaches a handler answers a request that this side sent, the peer's
handler received, and that was still open; that each stream is a queue of frames, taken in
the order in which they were written, each once; and that a request between idle peers is
answered, from the first send to the handler that gets the answer.

**Sharing communicators between threads** (`CommContainers`, `Sweeps`, `Kicks`).  The
container as a class, one sweep as a method, and any number of concurrent sweeps as a
transition system with one inductive invariant; the wake-up counter as a second transition
system in which the two counters are read one at a time.

**Two smaller parsers** (`HexStrings`, and `HttpHeaders`, `HttpMessages`, `HttpRoundTrips`,
`HttpPadding`, `HttpFraming`, `HttpUnframed`).  `process_hex_str`, and the HTTP sample's header parser,
printer and incremental framing by Content-Length (sections 7.2.2 and 10.4 of RFC 1945).

`Arithmetic`, `Sequences`, `Sets` and `Optional` hold the few general facts needed.

## What turned out to hold only under a condition

- A serialized message is read back exactly if its header is at most 127 bytes long or
  `char` is unsigned (`BinMessages.SerializedReadsBack`): the reader widens a signed length
  byte.  A name of 130 bytes is enough to be refused (`MessageDecoder.LongNameIsRefused`).
- A binary text that is read is what the message would be written as, unless its flags have
  further bits, its header is shorter than its fields, or a field holds the undefined id
  (`BinMessages.ReadTextPrintsBackIff`).
- A string of `\x` tokens is read back exactly if the bytes that it spells hold no token
  themselves (`HexStrings.EscapedReadsBackIff`).
- A header that claims less than its own first three bytes is accepted; all that follows is
  its name (`BinMessages.ShortHeaderIsRead`).
- An error of the channel that was not yet reported is forgotten when a later read, or a
  later write, succeeds (`CommEffects.ErrorsAreTheLatest`).
- A Content-Length so large that the sum with the header overflows gives a message that ends
  inside its own header (`HttpFraming.HugeLengthEndsInHeader`).
- A run loses no message, and every completed write finds its entry in `_out_buffers`,
  exactly when every write found its internal id free (`CommOutboxes.NothingIsLostIff`).
  This is certain while no more writes were started than there are ids
  (`CommOutboxes.CompletionsFindTheirEntry`), and one message more, with no write completed,
  is accepted and lost (`CommOutboxes.FullCircleLosesMessage`).
- Message ids repeat exactly every 2^N - 1 calls (`MessageIds.IdsRepeatIff`), so a request
  is known to be opened and closed at most once until the counter comes round.
- A kick's sweep reaches a client exactly when no other thread holds it at that time
  (`Sweeps.SweepMissesIff`); a thread may hold one that it has already processed, and then
  what arrived in between waits for another sweep (`Sweeps.KickCanMissClient`).
- A printed HTTP message is read back exactly when its first line is readable and holds no
  separator, it has headers, and each header is printable
  (`HttpRoundTrips.MessageReadsBackIff`).  A header line must be shorter than 0x200 chars,
  except that the last line may be longer by the blank after the colon of an empty value
  (`HttpRoundTrips.LongLineMattersUnlessLast`).
- A message that was parsed does not print as it was: its first line is kept as a header
  under the empty name and printed twice (`HttpRoundTrips.ReadMessagePrintsFirstLineTwice`).
- Behind messages with Content-Length, a request without it is taken by a server exactly
  when a chunk ends right behind it, and refused otherwise
  (`HttpUnframed.WithoutLengthCutsDecide`); so chunks do not matter if and only if nothing
  follows it (`HttpUnframed.WithoutLengthChunksMatterIff`).  A client takes nothing more
  until the buffer is as large as `size_t` allows (`HttpUnframed.ClientWaitsForever`).

## Model

| member | source | states |
|---|---|---|
| `BasicDetail.HeaderFlags` | src/include/detail/basic_detail.hpp:77-123 | the two flags read back as they were set, and no other bit is |
| `BasicDetail.ProcessOneIsXor` | src/include/detail/basic_detail.hpp:65-68 | the arithmetic of the model is the xor with 0x40 of the source |
| `BasicDetail.IdFlagIsBitZero` | src/include/detail/basic_detail.hpp:86-116 | reading, setting and clearing the id flag are the bit operations with 0x01 |
| `BasicDetail.RidFlagIsBitOne` | src/include/detail/basic_detail.hpp:86-123 | the same for the reply id flag and 0x02 |
| `BinCodec.BinaryEncode` | src/facade/bin_message_encoder.cpp:26-40 | the in-place loop with insertion leaves exactly the encoded string, byte by byte as the literals say |
| `BinCodec.BinaryDecode` | src/facade/bin_message_decoder.cpp:35-52 | the in-place loop with erasure leaves exactly the decoded string, and throws exactly when decoding does |
| `BinCodec.EncodeIsCanonical` | src/facade/bin_message_encoder.cpp:26-40 | encoded text holds no end marker, every escape byte is followed by 0xbe or 0xbf, and its length is the text's plus one for each special byte |
| `BinCodec.EncodeIsSpelledOut` | src/include/detail/basic_detail.hpp:46-68 | as literal bytes: 0xff travels as 0xfe 0xbf, 0xfe as 0xfe 0xbe, any other byte as itself, and 0xff is never among them |
| `BinCodec.DecodeFlipsAnyPair` | src/facade/bin_message_decoder.cpp:35-52 | the byte after 0xfe is decoded by xor with 0x40, whichever it is, and any other byte stands for itself |
| `BinCodec.DecodeInvertsEncode` | src/facade/bin_message_decoder.cpp:35-52 | decoding what was encoded gives the text back, for every byte string |
| `BinCodec.CanonicalIsImageOfEncode` | src/facade/bin_message_encoder.cpp:26-40 | a string is canonical if and only if it is the encoding of something |
| `BinCodec.EncodeInvertsDecode` | src/facade/bin_message_decoder.cpp:35-52 | encoding what was decoded gives the same bytes back exactly for canonical strings |
| `BinCodec.DecodeThrowsIff` | src/facade/bin_message_decoder.cpp:41-45 | decoding throws if and only if the string ends in an odd run of escape bytes |
| `Helper.IntToVec` | include/unicomm/helper.hpp:100-112 | the shifting loop appends the little-endian bytes of the value |
| `Helper.IntFromVec` | include/unicomm/helper.hpp:125-136 | the or-ing loop computes the number the bytes spell |
| `Helper.OrOfDisjoint` | include/unicomm/helper.hpp:131-134 | or-ing a byte in above the bits already used adds it |
| `Helper.IntRoundTrip` | include/unicomm/helper.hpp:100-136 | every value that fits its field is read back |
| `Helper.LittleEndianAt` | include/unicomm/helper.hpp:100-112 | the k-th byte of a field is the k-th byte of the value, the lowest first |
| `Helper.FieldRoundTrip` | include/unicomm/helper.hpp:100-136 | whatever bytes a field holds are written again from the value that is read |
| `BinMessages.BinMessage.Serialize` | src/facade/bin_message.cpp:94-124 | appending piece by piece builds the header, name, ids and tail, or throws when the header is longer than 255 |
| `BinMessages.BinMessage.Unserialize` | src/facade/bin_message.cpp:127-180 | the object takes the ids and tail the text holds; a malformed header leaves it as it was, and when the user's tail throws the ids are already in place |
| `BinMessages.SerializedReadsBack` | src/facade/bin_message.cpp:94-180 | what was serialized is read back, name, ids and tail, exactly when the header length is at most 127 or char is unsigned; otherwise it is rejected |
| `BinMessages.SerializedLayout` | src/facade/bin_message.cpp:94-124 | the place and value of every byte: version 0, header length, flags, name, id, reply id, tail |
| `BinMessages.HeaderIsReadableIff` | src/facade/bin_message_decoder.cpp:88-115 | a name can be read exactly if there are three bytes, version 0, and a length byte that is not negative and not beyond the text; which exception otherwise |
| `BinMessages.NameEndIsSubstr` | src/facade/bin_message_decoder.cpp:110-115 | the name is what substr gives for a length that wraps around in size_t |
| `BinMessages.ReadTextPrintsBackIff` | src/facade/bin_message.cpp:94-180 | writing what was read gives the same text, with the exact condition |
| `BinMessages.UnserializedThrowsIff` | src/facade/bin_message.cpp:127-155 | an object reads a text exactly if the text names it, and fails as looking for the name does, or for another name |
| `BinMessages.AbsentFieldsKeepIds` | src/facade/bin_message.cpp:157-177 | an id that the text does not have stays as the object had it |
| `BinMessages.ShortHeaderIsRead` | src/facade/bin_message_decoder.cpp:101-115 | a header that claims to be shorter than three bytes is read: the rest is the name, and the tail begins inside the header |
| `MessageDecoder.FindEnd` | src/facade/bin_message_decoder.cpp:64-71 | the first end marker, and none before it |
| `MessageDecoder.EncodeRawMessage` | src/facade/bin_message_encoder.cpp:45-51 | the buffer becomes the frame of its old contents: the escaped bytes as literals, and one 0xff, the last |
| `MessageDecoder.DecodeRawMessage` | src/facade/bin_message_decoder.cpp:77-85 | the marker is removed and the escapes undone |
| `MessageDecoder.PerformDecode` | src/message_decoder_base.cpp:30-67 | the first frame leaves the buffer whether it is then accepted or rejected, and the result, an exception of the user's tail included, is what that frame decodes to |
| `MessageDecoder.FirstFrameOfWire` | src/facade/bin_message_decoder.cpp:58-85 | an encoded body followed by anything is cut off exactly at its own end |
| `MessageDecoder.MessageRoundTrip` | src/message_decoder_base.cpp:30-67 | a message survives serialize, escape, frame, cut, unescape, name lookup and unserialize, or is rejected, as the header length, the registered names and the message class decide |
| `MessageDecoder.ExampleFrame` | src/facade/bin_message_encoder.cpp:45-51 | one message with an id, its serialized bytes and its frame |
| `MessageDecoder.LongNameIsRefused` | src/facade/bin_message_decoder.cpp:101-106 | a message that is sent and that a signed-char receiver refuses |
| `MessageDecoder.FramesOfAppend` | src/facade/bin_message_decoder.cpp:58-71 | the frames of a prefix are frames of the whole, and the rest is where the next chunk continues |
| `MessageDecoder.TakingAFrameRemovesOneMarker` | src/comm.cpp:833-846 | each frame taken, even a rejected one, removes one end marker, and finding none means that none is left |
| `MessageDecoder.FramesCountMarkers` | src/comm.cpp:833-846 | the number of frames is the number of end markers |
| `MessageDecoder.ReceiveIsLossless` | src/comm.cpp:828-847 | under any interleaving of arrivals and decode attempts no byte is lost, repeated or reordered |
| `MessageDecoder.FeedAllIsChunkIndependent` | src/comm.cpp:828-847 | feeding chunks and draining after each gives the frames of the concatenation |
| `MessageDecoder.FramesOfWire` | src/facade/bin_message_decoder.cpp:58-85 | the frames of concatenated wire forms are those wire forms, with nothing left |
| `MessageDecoder.AnyChunkingReassembles` | src/message_decoder_base.cpp:30-67 | messages encoded, concatenated, cut anywhere and decoded are the same messages in the same order |
| `MessageIds.NewMid` | src/comm.cpp:271-279 | a new id is never zero and fits its type |
| `MessageIds.ClosedForm` | src/comm.cpp:271-279 | the id after k calls from m is (m - 1 + k) mod (2^N - 1) + 1 |
| `MessageIds.IdsRepeatIff` | src/comm.cpp:271-279 | two ids of one counter are equal exactly when the calls between them are a multiple of 2^N - 1 |
| `MessageIds.ConsecutiveIdsDiffer` | src/comm.cpp:271-279 | any 2^N - 1 consecutive ids are pairwise different |
| `MessageIds.IdIsCallCount` | src/comm.cpp:271-279 | until the counter comes round the id is the number of calls |
| `CommStates.TakeMid` | src/comm.cpp:271-279 | the id counter moves to a defined id and stays in range |
| `CommStates.PrepareToWrite` | src/comm.cpp:1188-1227 | only the id counter, the queue and the history can change; ids that were given out stay used when encoding throws |
| `CommStates.ProcessReceived` | src/comm.cpp:964-1006 | looking at a message touches the id counter, the pending delivery and the history only |
| `CommStates.ProcessReply` | src/comm.cpp:1023-1070 | a reply can also change the open requests, and nothing else |
| `CommStates.DecodeFirst` | src/comm.cpp:838-844 | a decode attempt leaves the buffer without its first frame and does not touch queue or writes |
| `CommStates.NotifyFirstSent` | src/comm.cpp:935-957 | the entry leaves the vector before its callback, its request is open afterwards exactly if its name needs a reply, and only the open requests and the history change besides |
| `CommStates.StartOneWrite` | src/comm.cpp:1297-1322 | starting a write changes the queue, the internal id and the outstanding writes only |
| `CommStates.CompleteWrite` | src/comm.cpp:1364-1392 | a completion erases its entry, clears it from the outstanding writes and records the error state, whether or not it succeeded |
| `CommStates.Apply` | src/comm.cpp:828-1392 | which parts of the state each kind of step can touch |
| `CommHistories.StepKeepsConsistent` | src/comm.cpp:246-268 | every step keeps the open requests and the sent vector equal to what the history says, and adds only events that the rules allow |
| `CommHistories.RunsAreLegal` | src/comm.cpp:856-1070 | every run, with handlers throwing anywhere, keeps to the rules |
| `CommHistories.StepEmits` | src/comm.cpp:246-1392 | a step adds at most two events, of the kinds that belong to it |
| `CommHistories.SentCallbacksFollowCompletions` | src/comm.cpp:927-958 | sent callbacks come once for each successful write, in completion order, and those still to come are the sent vector |
| `CommHistories.OpensAndClosesAlternate` | src/comm.cpp:1023-1070 | openings and closings of a request alternate: an opening is closed at most once, by a reply or by timeout and never by both |
| `CommHistories.OpenedBetweenCloses` | src/comm.cpp:856-879 | between two closings of one request it was opened anew |
| `CommHistories.RepliesArriveOnlyWhileOpen` | src/comm.cpp:1023-1059 | a reply reaches the handler only if its request was open and allows it, and it closed the request just before |
| `CommHistories.CallbacksFollowOpenings` | src/comm.cpp:940-957 | over every run: a sent callback comes right behind the opening of its request exactly if its name awaits a reply |
| `CommOutboxes.StepConserves` | src/comm.cpp:1188-1392 | every step keeps the account of accepted messages |
| `CommOutboxes.OutboxConservation` | src/comm.cpp:1188-1392 | in every reachable state each accepted message is queued, in flight, sent but not notified, notified, failed or lost, and in one of these only |
| `CommOutboxes.CompletionsFindTheirEntry` | src/comm.cpp:336-382 | while no more writes were started than there are internal ids, the outstanding writes are exactly the keys of the map |
| `CommOutboxes.NothingIsLostIff` | src/comm.cpp:336-382 | nothing is lost and no completion misses its entry exactly when every write found its internal id free |
| `CommOutboxes.FullCircleLosesMessage` | src/comm.cpp:336-351 | a run that accepts one message more than there are internal ids, completes no write, and loses the last message |
| `CommIds.StepKeepsUnique` | src/comm.cpp:1188-1202 | when the communicator gives out the ids, each step keeps them unused until accepted and used once |
| `CommIds.RequestsCloseAtMostOnce` | src/comm.cpp:856-1070 | until the counter comes round: one message and one sent callback per id, and a request opened and closed at most once |
| `CommPasses.SendAll` | src/comm.cpp:1152-1185 | what a user's sends can change |
| `CommPasses.ArrivedOne` | src/comm.cpp:838-844 | one decoded frame with its handler leaves the buffer without that frame |
| `CommPasses.ConnectPass` | src/comm.cpp:1087-1092 | the flag is cleared before the session is created and the user called |
| `CommPasses.SentPassReaches` | src/comm.cpp:927-958 | the sent phase is a run of steps |
| `CommPasses.ArrivedPassReaches` | src/comm.cpp:828-847 | the arrived phase is a run of steps |
| `CommPasses.WritePassReaches` | src/comm.cpp:1297-1322 | the write phase is a run of steps |
| `CommPasses.TimeoutPassReaches` | src/comm.cpp:856-879 | the timeout phase is a run of steps |
| `CommPasses.MtProcessIsRun` | src/comm.cpp:1079-1149 | a call of mt_process, whatever callbacks throw, is a run of steps, so all that holds of runs holds of it |
| `CommEffects.SendQueuesIff` | src/comm.cpp:1188-1227 | what send queues: this message with its own id or the next one, exactly if there is a session, it encodes and its header fits |
| `CommEffects.AnswerQueuesIff` | src/comm.cpp:964-1006 | what a handler's answer queues: this message with the id of the message it answers as reply id, and its own id or the one set aside |
| `CommEffects.OutcomesAreReported` | src/comm.cpp:1364-1392 | the messages reported as sent are those whose writes succeeded, the failed ones those whose writes failed, in the order of the completions |
| `CommEffects.NotifyOpensIff` | src/comm.cpp:935-957 | the request of the first sent message is open afterwards, under its name, exactly if the table says that it needs a reply and timeouts are on |
| `CommEffects.DeliveredIff` | src/comm.cpp:964-1070 | a message reaches the handler exactly if it is no reply or its request is open and the table allows it; that request is closed and no other is touched |
| `CommCalls.CallbacksAreTheHistory` | src/comm.cpp:856-1006 | the callbacks of a call are what its history records, the very ids and messages, in order and each once |
| `CommCalls.CallbacksComeInPhases` | src/comm.cpp:1106-1141 | connected, then sent, then arrived, then timeout callbacks, and the processed one last, which is not made when the channel had an error |
| `CommDuties.SentPassOpens` | src/comm.cpp:927-958 | the sent phase opens the requests of exactly the messages that it tells, also when it throws |
| `CommDuties.RequestsOpenBeforeReplies` | src/comm.cpp:1110-1122 | a reply that is first in the buffer is delivered by the very call that opens its request: all finished writes are told and the request opened, then the reply closes it and reaches the handler |
| `CommFailures.MtProcessThrowsIff` | src/comm.cpp:1079-1149 | a call throws exactly if no session can be created, its last callback threw, the answer to its last message cannot be encoded, its last event is a refusal, or the channel had an error |
| `CommFailures.ErrorsComeLast` | src/comm.cpp:1079-1149 | a call that throws only because of a channel error has done all its other work before |
| `CommQueues.SendsAreQueued` | src/comm.cpp:1152-1227 | all messages that a callback sends are queued in order, each in its wire form, if they can be encoded |
| `CommQueues.AnswersLeaveInTheSameCall` | src/comm.cpp:1118-1128 | what the connected, sent and arrived callbacks of a call send or answer is written by that call, if time allows |
| `CommQueues.CallsBeginAndEnd` | src/comm.cpp:1079-1149 | a new connection is announced by the first callback, and a call that ends well with a session ends with the processed callback |
| `CommEffects.ErrorsAreTheLatest` | src/comm.cpp:1326-1392 | over every run: the channel has a read or write error exactly if its latest read or write failed and that was not reported since |
| `CommPhases.SentPassTellsPrefix` | src/comm.cpp:927-958 | the sent phase tells the user about a prefix of the sent vector in order and leaves the rest; all of it when nothing throws, at least one entry always |
| `CommPhases.ThrowingCallbacksLoseNothing` | src/comm.cpp:927-958 | however callbacks throw, as many calls as there are entries tell each exactly once, in order |
| `CommPhases.TimeoutPassClosesElapsed` | src/comm.cpp:856-879 | only elapsed requests are closed, in ascending order, and all of them when nothing throws |
| `CommPhases.WritePassEmptiesQueue` | src/comm.cpp:1297-1322 | as many messages leave the queue as the time allows |
| `CommPhases.ArrivedPassDrainsBuffer` | src/comm.cpp:828-847 | one pass more than there are end markers takes every complete frame, so the loop ends without its timer |
| `CommPhases.RejectedReplyThrowsIff` | src/comm.cpp:1023-1070 | a late or unknown reply is dropped in silence, a disallowed one throws; either way there is no callback and only the frame is gone |
| `CommPhases.RejectedReplyEndsPhaseIff` | src/comm.cpp:828-847 | such a reply ends the phase exactly if it is disallowed |
| `CommPhases.QuietCallsFinishTheirWork` | src/comm.cpp:1079-1149 | a call that does not throw leaves no finished write untold, no error unreported, no elapsed request open and, given time, no frame undecoded |
| `Communicators.Communicator.NewMid` | src/comm.cpp:271-279 | the counter field after the call |
| `Communicators.Communicator.PrepareToWrite` | src/comm.cpp:1188-1227 | id, encoding and queueing as the step says, throwing exactly when nothing was queued |
| `Communicators.Communicator.Send` | src/comm.cpp:1152-1155 | the object stays in a reachable state |
| `Communicators.Communicator.OutBuffersInsert` | src/comm.cpp:336-351 | map insertion keeps an entry that is there; the internal id moves on |
| `Communicators.Communicator.MtStartWrite` | src/comm.cpp:1297-1322 | the loop is the write phase |
| `Communicators.Communicator.MtRegSentMessage` | src/comm.cpp:795-815 | a found entry is appended to the sent vector; a missing one is swallowed |
| `Communicators.Communicator.MtAsioWriteHandler` | src/comm.cpp:1364-1392 | the handler is the completion step |
| `Communicators.Communicator.MtAsioReadHandler` | src/comm.cpp:1326-1361 | the handler is the arrival or the read error step |
| `Communicators.Communicator.RegMessageTimeout` | src/comm.cpp:246-268 | an open request is overwritten, another is inserted |
| `Communicators.Communicator.MtProcessSent` | src/comm.cpp:927-958 | the erasing loop is the sent phase, which opens the requests that it tells (`CommDuties.SentPassOpens`), exceptions included |
| `Communicators.Communicator.ProcessReceived` | src/comm.cpp:964-1006 | the message goes to the handler and its answer is queued as the reply that `CommEffects.AnswerQueuesIff` describes |
| `Communicators.Communicator.ProcessIncoming` | src/comm.cpp:850-853 | requests and replies take the branches of the step |
| `Communicators.Communicator.MtProcessArrived` | src/comm.cpp:828-847 | the decode loop is the arrived phase |
| `Communicators.Communicator.ProcessTimeouts` | src/comm.cpp:856-879 | the loop that erases while it iterates is the timeout phase |
| `Communicators.Communicator.MtHandleChError` | src/comm.cpp:490-530 | both errors are cleared, and an exception follows if there was one |
| `Communicators.Communicator.MtProcess` | src/comm.cpp:1079-1149 | the phases in order, or nothing when the lock is taken; the callbacks are the history's and come in the order of the phases; the object stays in a reachable state |
| `Communicators.ObjectsKeepToTheRules` | src/comm.cpp:828-1392 | whatever was called on an object and whatever its handlers threw, the history rules and the account of messages hold of it |
| `Peers.OwnFrameIsSound` | src/comm.cpp:1188-1227 | a frame the sender queued is rejected by the receiver or read as the message that was accepted |
| `Peers.StepKeepsSound` | src/comm.cpp:828-1392 | a step of either side keeps what the two know of each other |
| `Peers.SideOfNetRun` | src/comm.cpp:828-1392 | each side of a run of the pair is a run of one communicator |
| `Peers.ArrivalsWereSent` | src/comm.cpp:964-1006 | every message that reaches a handler is, whole, one that the peer accepted |
| `Peers.RepliesCloseTheirRequests` | src/comm.cpp:1023-1070 | a reply that reaches a handler closed a request that was open under an allowing name; nothing else closes it |
| `Peers.RepliesAnswerOpenRequests` | src/comm.cpp:964-1070 | every reply accepted with rid k answers a request k that this side sent, that the peer's handler received, and that was open; each k is closed once; replies may be handler answers or sent later with a received id |
| `Peers.WrittenIsTheEntry` | src/comm.cpp:1312-1319 | the bytes written are those of the map entry under the new id, so an occupied id sends its occupant again |
| `PeerStreams.StreamsAreQueues` | src/comm.cpp:828-1392 | from any state of whole frames: what is on its way and what is written then is what is taken and what is on its way then |
| `PeerStreams.FramesArriveInOrder` | src/comm.cpp:1297-1361 | the frames one side takes, and those on their way, are the frames the other side wrote, in order, each once; with free internal ids these are the started messages |
| `Exchanges.WireFormIsDelivered` | src/message_decoder_base.cpp:30-67 | a receiver that has read a message's wire form, whatever follows, hands exactly this message to its handler and closes the request that it answers |
| `Exchanges.AnswerClosesItsRequest` | src/comm.cpp:964-1070 | the answer that a handler returns closes the request that it answers, on every peer that still has it open and allows the answer |
| `Exchanges.RequestIsAnswered` | src/comm.cpp:828-1392 | between idle peers: the peer's handler gets exactly the request, the requester's exactly the answer, and the request is open in between and closed then |
| `CommContainers.CommContainer.constructor` | src/comm_container.cpp:94-111 | an empty container |
| `CommContainers.CommContainer.TakeOut` | src/comm_container.cpp:94-111 | the first client moves to the excluded map, or nothing happens when there is none |
| `CommContainers.CommContainer.GetBack` | src/comm_container.cpp:133-146 | an excluded client moves back; any other id changes nothing |
| `CommContainers.CommContainer.Insert` | src/comm_container.cpp:180-188 | a new id is filed in the primary map; one that is in either map changes nothing |
| `CommContainers.CommContainer.Erase` | src/comm_container.cpp:275-283 | the client leaves whichever map it is in, and the result says whether there was one |
| `CommContainers.CommContainer.Get` | src/comm_container.cpp:159-177 | finds a client in either map |
| `CommContainers.CommContainer.Size` | src/comm_container.cpp:250-255 | the number of clients in both maps |
| `CommContainers.CommContainer.Communicators` | src/comm_container.cpp:286-296 | all clients of both maps |
| `CommContainers.Dispatcher.HandleDisconnected` | src/dispatcher.cpp:865-883 | whoever removes the client makes the callback, and nobody else |
| `CommContainers.Dispatcher.ProcessClient` | src/dispatcher.cpp:475-537 | data left over asks for a kick, a disconnect removes the client, closes it and calls back, a failed session closes the socket, and any other exception is only reported |
| `CommContainers.Dispatcher.GetBackEach` | src/dispatcher.cpp:466-468 | handing a list back restores those that are still excluded |
| `CommContainers.Dispatcher.ProcessClients` | src/dispatcher.cpp:454-537 | one undisturbed sweep processes every client once, in id order; exactly the ones that stayed are back at the end; disconnects, error reports and kicks are those of the clients, in order |
| `CommContainers.SweptClean` | src/dispatcher.cpp:454-472 | when the loop ends, handing back gives the kept clients and no others |
| `Sweeps.StepKeepsInv` | src/comm_container.cpp:94-146 | every locked call of every thread keeps the maps disjoint and every excluded id held by exactly one thread |
| `Sweeps.MutualExclusion` | src/dispatcher.cpp:454-468 | no communicator is processed by two threads at once |
| `Sweeps.SweepsRestore` | src/dispatcher.cpp:466-468 | when no sweep is active, exactly the inserted and not erased clients are in the primary map and the excluded map is empty |
| `Sweeps.SweepIsBounded` | src/dispatcher.cpp:454-464 | within a sweep a thread takes each id at most once, and no more than were present or inserted |
| `Sweeps.SeenIsPresentOrInserted` | src/dispatcher.cpp:454-464 | what the bound counts: the clients present at the start and those inserted since |
| `Sweeps.ErasedNeverReappears` | src/comm_container.cpp:133-146 | an erased client never comes back although a thread still has its id |
| `Sweeps.DisconnectedCallOnce` | src/dispatcher.cpp:865-883 | the disconnected callback runs at most once per client, and only for one that is gone |
| `Sweeps.SweepMissesIff` | src/dispatcher.cpp:454-468 | when take_out finds nothing, a present client was taken by this sweep if and only if no other thread holds it |
| `Sweeps.KickCanMissClient` | src/dispatcher.cpp:454-468 | a run in which a second sweep finds nothing although the first has already processed the client |
| `Kicks.StepKeepsInv` | src/dispatcher.cpp:733-740 | the invariant behind both results, for every interleaving of separate loads, increments and posts |
| `Kicks.NoLostKick` | src/dispatcher.cpp:733-740 | after a call during which a thread was always running, a process() has begun since or a handler is outstanding |
| `Kicks.KickCountIsBounded` | include/unicomm/dispatcher.hpp:620-623 | the counter is handlers posted and promised, never negative, and with K kickers never above the largest run count so far - 1 + K |
| `Kicks.WholeKickRuns` | src/dispatcher.cpp:733-740 | an undisturbed call posts one handler and counts it, or does neither |
| `Kicks.Dispatcher.CanKick` | include/unicomm/dispatcher.hpp:622-623 | counts exactly when there are fewer handlers than running threads |
| `Kicks.Dispatcher.KickDispatcher` | src/dispatcher.cpp:733-740 | the counters move as one kicker's steps do |
| `Kicks.Dispatcher.KickHandler` | src/dispatcher.cpp:997-1004 | the counter goes down before process() begins |
| `Kicks.Dispatcher.IncRunCount` | include/unicomm/dispatcher.hpp:625-625 | one more running thread |
| `Kicks.Dispatcher.DecRunCount` | include/unicomm/dispatcher.hpp:626-629 | one thread fewer, and whether it was the last |
| `HexStrings.FindToken` | src/detail/helper_detail.cpp:99-100 | the first token at or after a place |
| `HexStrings.Replace` | src/detail/helper_detail.cpp:102-121 | a replacement makes the string shorter and leaves what is before it |
| `HexStrings.ReadHex` | src/detail/helper_detail.cpp:113-115 | the digits' value |
| `HexStrings.ProcessHexStr` | src/detail/helper_detail.cpp:95-125 | the rewriting loop ends and leaves what the recursion says, also when it throws |
| `HexStrings.ProcessedIsFixedPoint` | src/detail/helper_detail.cpp:95-125 | a result without exception holds no token, is no longer than the input and is not changed by processing it again |
| `HexStrings.ProcessedIsIdentityIff` | src/detail/helper_detail.cpp:95-125 | a string is left alone exactly when it holds no token |
| `HexStrings.RestartIsUnnecessary` | src/detail/helper_detail.cpp:99-100 | searching again from the front equals searching from one place before the replaced char |
| `HexStrings.TokenIsReplaced` | src/detail/helper_detail.cpp:101-121 | a token with its digits anywhere in a string becomes one byte of their value, or throws without digits or above 255 |
| `HexStrings.FitsByteIff` | src/detail/helper_detail.cpp:113-118 | a number of any length fits a char exactly if all digits but the last two are zeros |
| `HexStrings.EscapedReadsBackIff` | src/detail/helper_detail.cpp:95-125 | bytes written as tokens of two digits, small or capital, are read back exactly if they hold no token themselves |
| `HttpHeaders.Find` | samples/http/http_message_base.cpp:73-76 | the first place of a pattern |
| `HttpHeaders.TrimIs` | samples/http/http_message_base.cpp:42-64 | trimming gives a trimmed string and changes no other |
| `HttpHeaders.TrimIsSlice` | samples/http/http_message_base.cpp:42-64 | trimming takes away blanks at both ends and keeps all that is between |
| `HttpHeaders.TrimOfPadded` | samples/http/http_message_base.cpp:42-64 | of a trimmed text with any blanks around it trimming leaves exactly the text |
| `HttpHeaders.LessIff` | samples/http/http_message_base.cpp:109-113 | the order of the multimap: the first char in which two names differ decides |
| `HttpHeaders.InsertKeepsSorted` | samples/http/http_message_base.cpp:109-113 | insertion keeps the multimap in order |
| `HttpHeaders.InsertMembers` | samples/http/http_message_base.cpp:109-113 | insertion adds the entry and loses none |
| `HttpHeaders.InsertAppendsValue` | samples/http/http_message_base.cpp:109-113 | values of one name keep their insertion order |
| `HttpHeaders.HeadersStrIsLines` | samples/http/http_message_base.cpp:140-152 | the printed headers are lines, each ended by the separator |
| `HttpHeaders.StringStream.GetLine` | samples/http/http_message_base.cpp:88-89 | what getline extracts from the stream into a buffer of fixed size, and the stream state after it |
| `HttpHeaders.StringStream.Get` | samples/http/http_message_base.cpp:90-90 | one char is dropped, or the stream fails |
| `HttpHeaders.ParseHeaderText` | samples/http/http_message_base.cpp:69-105 | the do-while loop over the stream parses the lines and stops as the stream state says; what the lines give is `HttpPadding.PaddedHeaderParses` |
| `HttpMessages.HttpMessage.AddHeader` | samples/http/http_message_base.cpp:109-113 | the header is inserted behind its equals |
| `HttpMessages.HttpMessage.RemoveHeader` | samples/http/http_message_base.cpp:116-119 | all headers of the name are gone and the others stay |
| `HttpMessages.HttpMessage.GetHeader` | samples/http/http_message_base.cpp:122-131 | the first value of a name, or an exception |
| `HttpMessages.HttpMessage.HeadersText` | samples/http/http_message_base.cpp:140-152 | the loop concatenates the printed lines |
| `HttpMessages.HttpMessage.Serialize` | samples/http/http_message_base.cpp:155-158 | the printed message |
| `HttpMessages.HttpMessage.Unserialize` | samples/http/http_message_base.cpp:161-178 | the fields after parsing, also when it throws half way; the headers are a sorted multimap in every case |
| `HttpMessages.WithoutLeavesOthers` | samples/http/http_message_base.cpp:116-119 | removing a name leaves the values of every other name, in order |
| `HttpMessages.ParsedHasFirst` | samples/http/http_message_base.cpp:79-83 | a parsed header begins with the trimmed first line under the empty name |
| `HttpMessages.ParsedIsSorted` | samples/http/http_message_base.cpp:85-102 | parsing builds a sorted multimap |
| `HttpMessages.LineSurvivesIff` | samples/http/http_message_base.cpp:85-92 | a line reaches the parser unchanged exactly when it is shorter than 0x200 and free of CR and NUL |
| `HttpMessages.EntryReadsBackIff` | samples/http/http_message_base.cpp:92-101 | a printed header is parsed back exactly when its name has no colon and name and value are trimmed |
| `HttpMessages.ResponseReadsBackIff` | samples/http/http_response.cpp:30-58 | a status line reads back exactly when the status is not empty and does not end in a blank |
| `HttpMessages.RequestReadsBackIff` | samples/http/http_request.cpp:28-49 | a request line reads back exactly when name and uri are single words |
| `HttpRoundTrips.LinesParseBack` | samples/http/http_message_base.cpp:85-102 | printable headers are parsed back, all and in order |
| `HttpRoundTrips.SeparatorFound` | samples/http/http_message_base.cpp:165-170 | the end of the header is found where it was printed |
| `HttpRoundTrips.ParsedLinesAreParseable` | samples/http/http_message_base.cpp:85-102 | every parsed header has a name without colon, and trimmed parts without CR and NUL, whatever the text |
| `HttpRoundTrips.LinesWeighLess` | samples/http/http_message_base.cpp:85-102 | parsing printed headers gives no more headers and chars than were printed, and as many only if all are printable |
| `HttpRoundTrips.MessageReadsBackIff` | samples/http/http_message_base.cpp:155-178 | a message printed and parsed has the same first line, headers and body, plus the first line under the empty name, if and only if it is well formed |
| `HttpRoundTrips.ReadMessagePrintsFirstLineTwice` | samples/http/http_message_base.cpp:140-178 | printing a parsed message repeats its first line |
| `HttpRoundTrips.MessageWithoutHeadersIsRejected` | samples/http/http_message_base.cpp:73-76 | a printed message without headers is refused unless its first line holds a separator |
| `HttpRoundTrips.OrdinaryMessagesAreWellFormed` | samples/http/http_message_base.cpp:155-178 | messages that meet the condition, one with a CR alone in its status |
| `HttpRoundTrips.LongLineMattersUnlessLast` | samples/http/http_message_base.cpp:87-102 | a line of exactly 0x200 chars is read back at the end of a header and not before another |
| `HttpPadding.PaddedLineParses` | samples/http/http_message_base.cpp:85-102 | a line of name, colon and value with any blanks around them gives exactly that name and value |
| `HttpPadding.PaddedHeaderParses` | samples/http/http_message_base.cpp:69-105 | a whole header of such lines gives its first line and exactly these names and values |
| `HttpPadding.IsSpaceIff` | samples/http/http_request.cpp:36-49 | the chars that end a word |
| `HttpPadding.ResponseLineReads` | samples/http/http_response.cpp:39-58 | a status line with any version gives what follows its first blank |
| `HttpPadding.ResponseLineIsRefused` | samples/http/http_response.cpp:38-50 | a status line without a blank, or with nothing before it, is refused and nothing is taken |
| `HttpPadding.RequestLineReads` | samples/http/http_request.cpp:36-49 | a request line with any white space gives its first two words |
| `HttpPadding.RequestLineWithoutVersion` | samples/http/http_request.cpp:36-49 | without a third word it throws, although both fields have been taken |
| `HttpPadding.RefusedRequestKeepsParts` | samples/http/http_message_base.cpp:161-178 | a request that is refused for its missing version has kept its words and headers |
| `HttpPadding.RefusedHeaderKeepsNothing` | samples/http/http_message_base.cpp:161-178 | a message whose header cannot be parsed has lost the headers of before |
| `HttpPadding.ExampleResponse` | samples/http/http_response.cpp:30-36 | a printed response, char by char |
| `HttpPadding.ExampleRequest` | samples/http/http_request.cpp:28-34 | a printed request, char by char |
| `HttpFraming.HttpDecoder.FinishDecode` | samples/http/http_message_decoder.cpp:149-155 | the bounds are the remembered length, and both fields are zero again |
| `HttpFraming.HttpDecoder.FindRaw` | samples/http/http_message_decoder.cpp:43-131 | bounds, exception and both fields as the branches of the source give them |
| `HttpFraming.FindsExactlyTheMessage` | samples/http/http_message_decoder.cpp:43-131 | on any part of a message or more, the decoder finds exactly the message once it is complete and nothing before |
| `HttpFraming.DrainTakesComplete` | samples/http/http_message_decoder.cpp:43-155 | draining a buffer takes the complete messages and no others |
| `HttpFraming.FramingIsChunkIndependent` | samples/http/http_message_decoder.cpp:43-155 | for messages that state their length the frames depend on the bytes only, and the remembered length is zero or exactly that of the current message |
| `HttpFraming.WholeStreamComesOut` | samples/http/http_message_decoder.cpp:43-155 | a whole stream comes out as it was sent, and the decoder is as new |
| `HttpFraming.PrintedMessageIsFramed` | samples/http/http_message_base.cpp:155-158 | a printed message whose Content-Length is its body's length is such a message |
| `HttpFraming.FirstLookThrowsIff` | samples/http/http_message_decoder.cpp:59-118 | which of the three exceptions a first look at a buffer throws, and when |
| `HttpFraming.SecondLookFindsNothing` | samples/http/http_message_decoder.cpp:43-58 | a buffer in which nothing was found, or which was refused, is not looked at again until it has grown |
| `HttpFraming.HugeLengthEndsInHeader` | samples/http/http_message_decoder.cpp:66-86 | a length that overflows size_t is found at once as a message that ends in its own header |
| `HttpUnframed.HeaderWithoutLength` | samples/http/http_message_decoder.cpp:59-118 | the first look at a header without Content-Length, whatever part of it was seen before |
| `HttpUnframed.DrainLosesNothing` | samples/http/http_message_decoder.cpp:43-155 | on any stream the frames taken and the buffer left are the bytes received |
| `HttpUnframed.WithoutLengthCutsDecide` | samples/http/http_message_decoder.cpp:87-118 | for every stream with such a message behind framed ones and every cutting of it: the framed ones are taken; a client keeps the rest; a server takes the request exactly if a chunk ends behind it and refuses it otherwise |
| `HttpUnframed.WithoutLengthChunksMatterIff` | samples/http/http_message_decoder.cpp:99-112 | on a server all chunkings give the same result if and only if nothing follows the request |
| `HttpUnframed.ClientWaitsForever` | samples/http/http_message_decoder.cpp:113-124 | a client that has seen such a header takes nothing from any further chunks until the buffer is as large as size_t allows |
| `HttpUnframed.PrintedHeadHasNoLength` | samples/http/http_message_base.cpp:155-158 | every printed message without the header is such a message |
| `HttpUnframed.PipelinedRequestDependsOnChunks` | samples/http/http_message_decoder.cpp:99-112 | an ordinary request and one more char are taken or refused depending on the chunks |

## Left out

- Communicators.Communicator.MtStartWrite: which queued message comes first is a parameter. The priority queue of the bundled smart library is not part of this model, so nothing is claimed about priority order, and `front_copy` with `pop` is taken as one step.
- MessageDecoder.PerformDecode: a header whose length byte is too small for the id fields its flags announce counts as rejected; the source forms iterators outside the string there.
- HttpFraming.FindRawMessage: `lexical_cast<size_t>` is a parameter of the model.
- Peers.RepliesAnswerOpenRequests: a reply id that a user sets by hand is one that arrived on that side (`Peers.AnswersArrival`); with an invented one the peer may close a request that was never received. Each frame reaches the wire whole and in the order of the writes, although the source may have several asynchronous writes outstanding on one socket.
- Exchanges.RequestIsAnswered: one schedule, between peers that have nothing else to do; with other traffic its halves hold by themselves (`Exchanges.WireFormIsDelivered`, `Exchanges.AnswerClosesItsRequest`), and no fairness of threads or network is modelled.
- CommPasses.SendAll: the handler that a user may give to `send` for the sent callback of that one message is part of the session and not modelled.
- Communicators.Communicator.ProcessReceived: the same for the sent handler of an answer.
- CommIds.RequestsCloseAtMostOnce: for messages without an id of their own; a reply id set by hand is allowed. Preset ids and broadcasts, where the shared message keeps the id of the first connection, are not covered, and concurrent callers of `new_mid` are not modelled.
- The window in which the read handler runs between a decode that finds nothing and the clearing of the updated flag.
- Sockets, asio, SSL handshakes, fork, signals, timers, locks and debug output: completions, elapsed timeouts and lock outcomes are steps or parameters.
- CommContainers.Dispatcher.ProcessClient: the exceptions of the user's own error and disconnect callbacks, which are swallowed.
- `send_all`, `get_back_all`, `clear` and shutdown of the container.
- `reset` of the dispatcher after `stop`, which leaves the kick counter as it is.
- One HTTP decoder shared by several connections.
- The XML format, configuration setters and loaders, session templates, path helpers, and the samples' directory listings.
