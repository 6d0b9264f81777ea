# QtCoap client: model and proofs

This project models the client side of the Constrained Application Protocol as the QtCoap
library implements it, and proves what the layers promise, one by one and composed. Check it
with `dafny verify dfyconfig.toml --resource-limit 2000000 --verification-time-limit 0`.

## The model

The library's objects that change are classes here, with the loops the library has:

- `OptionList`: the option list of a message, with its binary-search insertion.
- `Blocks`: block option values, the block state of a message, slices of a payload.
- `Codec`: encoder and parser of frames. Nibble 14 is followed by one extension byte, where
  section 3.1 of RFC 7252 has two; the encoder's running option number has 8 bits.
- `Requests`: request objects with block options, retransmission counter, timeout and timers.
- `Protocol`: the engine in place. Its table holds request objects that the handlers change.
- `UserReplies`, `Connection`, `LinkFormat`: the user's reply object, the queue of outgoing
  frames, and the discovery reply.

Every method is proved equal to a pure description of the same step, and the theorems are
about those descriptions:

- `Exchanges`: one exchange. Every event has an effect: what becomes of the exchange, what is
  posted to the user's reply, what is sent, what is signalled. `RequestFrames` says what the
  requests on the wire are, `Signals` what the client is signalled and how exchanges end.
- `Engine`: the table of exchanges as a state machine; `Isolation` shows that one exchange's
  part in a run of the engine is a run of that exchange alone. `EngineRuns` carries the theorems
  on downloads, uploads, observations, multicast, acknowledgments, timers and retransmission over
  to the engine with it.
- `Completion`: engine, first-in-first-out event queue and user replies together; `SystemRuns`
  follows tokens and finished replies through the runs of that system.
- `ReplyHistory`: what a reply shows, read off the slots and aborts it has seen; `Deliveries`:
  what the queue delivers to a reply in a run of the system; `Aborts`: what an abort, a
  destruction or a cancellation achieves.
- `EngineView` sees the engine's part of a system run as a run of the engine, from a submission
  on. `UserView` composes all of that: what a download, an upload, an observation or a failure
  comes to in the fields and signals of the user's reply.

Time is a natural number of milliseconds that comes with each event. Random ids, tokens and
timeouts are parameters constrained as the library constrains them; calls across threads are
entries of the event queue; a user reply that is gone is `None`. The acknowledgment random
factor is a real number. Timer intervals are narrowed to `int` as in the library, and a timer with
a negative interval does not run; a scaled duration that is out of range wraps to 32 bits.

On top of that: `CodecRoundTrip` (frames), `WireFormat` (the bytes the standards prescribe),
`Reassembly` (merging blocks), `Observation`, `SeparateResponses`, `TransmissionTimers` (which timers
run, and when an exchange ends by itself) and `Retransmission`. Multicast requests are treated in
four modules: `Multicasting` (many hosts, without Observe), `HostResponses` (all responses of one
host), `MulticastObservation` (with Observe) and `MulticastExpiry`. In the end-to-end transfers `Download` and `Upload` the server sees
nothing but the bytes the client sends (`WireRequests`); `UploadDelivery` puts a network between
them that loses, repeats and reorders, and `CombinedTransfer` has a blockwise response behind a
blockwise request.

## Where the code does not do what is promised

Each has a lemma that names the exact condition, an example, or both.

- A response 4.15 (Unsupported Content-Format) is an unknown error to the library, which knows it
  under the code of 4.14 (`WireFormat.NamedErrorsExactly`).
- An option numbered above 255 is followed correctly only by options at least 269 further on,
  because the encoder forgets the high byte of the running number
  (`CodecRoundTrip.RoundTripExactly`, `CodecRoundTrip.RunningNumberOverflows`).
- A multicast request never drops what a host has sent, and the merged payload is written into the
  stored last reply. A repeated last block is therefore merged a second time
  (`HostResponses.RepeatedLastFrame`), and every later response of the host is merged with what is
  stored (`HostResponses.LaterResponseExactly`, `HostResponses.EachResponseIsOwnExactly`): of two
  different responses in one frame each, the second is lost (`HostResponses.SecondResponseIsLost`).
- On a multicast request that observes, a complete response of one host clears the blocks of all
  others, so a response interleaved with it loses its beginning
  (`MulticastObservation.WatchedHostGetsItsOwnExactly`,
  `MulticastObservation.ResponseOfAnotherHostCuts`).
- One error response, of any host, ends a multicast request for all of them: a host's complete
  response that comes later is lost (`Multicasting.HostGetsItsOwnExactly`,
  `Multicasting.ErrorOfAnotherHostSilences`).
- A multicast request whose assumed delays sum up to 2^31 ms or more expires too early or never
  (`MulticastExpiry.ExpiryWaitsForTimelyAnswers`, `MulticastExpiry.ExpiryNeverStarts`).
- MAX_TRANSMIT_SPAN and MAX_TRANSMIT_WAIT are too short once the scaled value needs more than 32
  bits (`Retransmission.SpanAndWaitHoldExactly`, `Retransmission.WaitOverflows`,
  `Retransmission.ScaledWaitOverflows`). A wait of 2^31 ms or more starts no timer
  (`Retransmission.WaitTimerRunsExactly`, `Retransmission.WaitTimerNeverStarts`), and an unanswered
  request is then not tried all the way (`Retransmission.FullyTriedExactly`,
  `Retransmission.TimersSufficeExactly`).
- Stopping a transmission does not restore the timeout, so a block after a lossy one starts
  with a longer wait (`Retransmission.NextBlockWaitsDoubled`).
- After an empty acknowledgment or a notification no timer is left, so a response that never comes
  is never given up (`TransmissionTimers.EndsExactly`, `TransmissionTimers.StoppedNeverEnds`).
- A Reset, or any other empty message that is no acknowledgment, is taken for a successful last
  block: a download then reports a part as the body (`Download.DownloadIsSound`,
  `Download.TruncatedDownload`), and an upload reports success with blocks still to send
  (`Upload.UploadIsSound`, `Upload.TruncatedUpload`).
- An echo with a payload counts as block 0 of the response that follows
  (`CombinedTransfer.CombinedTransferExactly`).
- A token chosen twice drops the first exchange without finishing its reply
  (`Completion.ReusedTokenDropsExchange`).
- An abort, or the destruction of a reply, ends the exchange only when the reply has been told its
  token, by its request or by the running slot, which must have been delivered
  (`Aborts.AbortRemovesExactly`, `Aborts.DestroyRemovesExactly`), and an abort before submission does
  not keep the request from being sent (`SystemRuns.AbortBeforeSubmissionIsLost`). Likewise a
  cancellation marks the observation, so that the next frame gets the promised reset, only then
  (`Aborts.CancelMarksExactly`).
- The documentation of replies says that finished follows every error; an abort in between
  turns the order around (`UserReplies.ErrorAfterFinished`).
- Transfers of more than 2^20 blocks never succeed, and such an upload is reported as a success
  only when an empty message cuts it off (`Download.DownloadFailsBeyond`,
  `Upload.UploadFailsBeyond`).
- A frame whose token belongs to no exchange is still matched by message id, so a response with a
  foreign token can reach an exchange (`EngineRuns.ReachesExactly`).
- The branch of the last-message handler for cancelled observations is never reached from a
  frame, since the Observe option is removed first; a cancelled observation therefore ends with
  content and finished (`Observation.CancelledFrameIsReset`).

## Model

| member | source | states |
|---|---|---|
| OptionList.MessageOptions.AddOption | src/coap/qcoapmessage.cpp:119-131 | the binary search inserts behind every option whose number is not larger and keeps the list sorted |
| OptionList.MessageOptions.RemoveOption | src/coap/qcoapmessage.cpp:146-156 | exactly the options of that name go; all others keep their order |
| OptionList.MessageOptions.RemoveOneOption | src/coap/qcoapmessage.cpp:136-141 | only the first equal option goes |
| OptionList.MessageOptions.FindOption | src/coap/qcoapmessage.cpp:260-265 | the first option of that name, if there is one |
| OptionList.MessageOptions.OptionsNamed | src/coap/qcoapmessage.cpp:289-299 | all options of that name, in list order |
| OptionList.ListIsStableSortOfSurvivors | src/coap/qcoapmessage.cpp:119-165 | after any history of adding, removing and clearing, the list is the stable sort by number of the surviving options in insertion order, so the assertion of the encoder always holds |
| OptionList.ListDependsOnlyOnSurvivors | src/coap/qcoapmessage.cpp:119-165 | two histories with the same survivors leave the same list |
| Blocks.BlockOptionValue | src/coap/qcoapinternalrequest.cpp:270-304 | the shift-and-append loop gives the shortest big-endian value of number, M and SZX |
| Blocks.SzxIsLogarithm | src/coap/qcoapinternalrequest.cpp:270-304 | the shift formula for SZX equals log2(size) - 4 |
| Blocks.MessageBlock.SetFromDescriptiveBlockOption | src/coap/qcoapinternalmessage.cpp:86-105 | the byte loop sets block number, M and size as the value describes |
| Blocks.ComputeNextBlockToSend | src/coap/qcoapinternalreply.cpp:148-171 | one more than the echoed block number when M is set, -1 otherwise |
| Blocks.BlockRoundTrip | src/coap/qcoapinternalrequest.cpp:270-304 | for every number below 2^20 and every block size the decoder recovers number, M and size |
| Blocks.BlockBytesMinimal | src/coap/qcoapinternalrequest.cpp:270-304 | no byte string that means the same block is shorter |
| Blocks.SlicesAreWhole | src/coap/qcoapinternalrequest.cpp:232-244 | the blocks of a payload, in order, are the payload |
| Blocks.HasSuccessor | src/coap/qcoapinternalrequest.cpp:288-292 | the comparison that sets M holds for exactly the blocks that have a successor |
| Codec.SplitValue | src/coap/qcoapinternalrequest.cpp:154-180 | a delta or a length as nibble and extension: none below 13, one byte up to 268, and from 269 on one byte with the nibble 14 |
| Codec.AppendOption | src/coap/qcoapinternalrequest.cpp:149-190 | one option: head byte, at most one extension byte each for delta and length, value |
| Codec.ToByteArray | src/coap/qcoapinternalrequest.cpp:124-203 | the encoder loop with its 8-bit running option number produces the frame `Encode` describes |
| Codec.ReadOption | src/coap/qcoapinternalreply.cpp:75-95 | one option is read back as the grammar describes, inside the frame |
| Codec.ReadOptions | src/coap/qcoapinternalreply.cpp:66-96 | the parse loop ends, stays inside the frame and adds the options in the order found, the last Block2 option deciding the block state |
| Codec.ReadBody | src/coap/qcoapinternalreply.cpp:66-104 | options, block state and payload of what follows the token, the payload being what stands behind the marker |
| Codec.CreateFromFrame | src/coap/qcoapinternalreply.cpp:51-107 | message, code and block state are those `Decode` describes |
| CodecRoundTrip.RoundTripExactly | src/coap/qcoapinternalrequest.cpp:124-203 | parsing an encoded message returns version, type, code, id, token, option sequence and payload if and only if the version is at most 3, the token at most 15 bytes, every value at most 524 bytes, every option distance at most 524 and, behind an option numbered above 255, at least 269, and Block2 values are not empty |
| CodecRoundTrip.PlainRoundTrip | src/coap/qcoapinternalreply.cpp:51-107 | messages whose options are numbered below 256 always come back whole, with the block state of their Block2 option |
| CodecRoundTrip.RunningNumberOverflows | src/coap/qcoapinternalrequest.cpp:150-190 | the condition is needed: behind option 256, option 300 arrives as option 556 |
| Reassembly.MergePayloads | src/coap/qcoapprotocol.cpp:507-537 | sort, skip and append computes `Merge` |
| Reassembly.MergeIsAscending | src/coap/qcoapprotocol.cpp:518-534 | the merge is the concatenation, by ascending number, of the first non-empty copy of every block, for all replies |
| Reassembly.MergeIgnoresOrder | src/coap/qcoapprotocol.cpp:518-534 | replies with the same non-empty blocks merge to the same payload whatever their order and repetition |
| Reassembly.MergeIsBody | src/coap/qcoapprotocol.cpp:507-537 | when the replies are the slices of a body, the merge is the body |
| Reassembly.FrontMattersExactly | src/coap/qcoapprotocol.cpp:507-534 | replies ahead of others, block by block: the copy in front counts if it carries anything; the blocks stay the same if and only if every block in front is carried alike behind, and so does the merge, given comparable copies |
| Requests.InternalRequest.SetRequestBlock | src/coap/qcoapinternalrequest.cpp:212-223 | both block options are replaced by one Block2 option, unless the number needs more than 20 bits |
| Requests.InternalRequest.SetSendBlock | src/coap/qcoapinternalrequest.cpp:232-244 | payload becomes that slice of the full payload and Block1 says so, unless the number needs more than 20 bits |
| Requests.InternalRequest.Restart | src/coap/qcoapinternalrequest.cpp:426-440 | starts the wait timer, or counts a retransmission and doubles the 32-bit timeout, and starts the retry timer for a timeout above zero; intervals that are negative as int start no timer |
| Requests.InternalRequest.StartMulticast | src/coap/qcoapinternalrequest.cpp:447-453 | starts the expiry timer with the interval narrowed to int |
| Requests.InternalRequest.Stop | src/coap/qcoapinternalrequest.cpp:460-471 | stops the timers and resets the counter, leaving the timeout as it is |
| Requests.EmptyMessageIsFourBytes | src/coap/qcoapinternalrequest.cpp:82-94 | an empty message is encoded in exactly four bytes |
| Engine.ByIdIsUnique | src/coap/qcoapprotocol.cpp:461-469 | with distinct ids the lookup by message id does not depend on the order of the table |
| Engine.NextKeepsInvariant | src/coap/qcoapprotocol.cpp:107-382 | every event keeps keys non-empty and equal to the request token, ids non-zero and pairwise distinct, options sorted, settings in range |
| Engine.ReachableInvariant | src/coap/qcoapprotocol.cpp:107-868 | the table invariant holds throughout every run |
| Engine.FreshIdExistsExactly | src/coap/qcoapprotocol.cpp:652-661 | a free message id exists if and only if fewer than 65535 exchanges are open |
| Isolation.RunIsolated | src/coap/qcoapprotocol.cpp:320-382 | a run of the whole engine, seen through one token, is the run of that exchange over its own events |
| Protocol.CoapProtocol.SendRequest | src/coap/qcoapprotocol.cpp:107-180 | opens the exchange and transmits the request exactly as the state machine says |
| Protocol.CoapProtocol.SendTo | src/coap/qcoapprotocol.cpp:189-209 | restarts the transmission in place and hands over the frame of the request as it is then |
| Protocol.CoapProtocol.OnFrameReceived | src/coap/qcoapprotocol.cpp:320-382 | decoding, matching, stopping, storing, answering and proceeding in place amount to one transition of the state machine |
| Protocol.CoapProtocol.OnReply | src/coap/qcoapprotocol.cpp:341-382 | the part behind the lookup, for one exchange, with every other request object untouched |
| Protocol.CoapProtocol.FindRequestByMessageId | src/coap/qcoapprotocol.cpp:461-469 | the loop over the table finds the one exchange with that id, in whatever order it runs |
| Protocol.CoapProtocol.OnLastMessageReceived | src/coap/qcoapprotocol.cpp:480-556 | dropping, ignoring, merging, delivering and forgetting, in place |
| Protocol.CoapProtocol.OnRequestError | src/coap/qcoapprotocol.cpp:288-313 | content or error, then finished, then the exchange is gone and the error signalled |
| Protocol.CoapProtocol.OnRequestTimeout | src/coap/qcoapprotocol.cpp:217-231 | a retransmission while the count allows it, the TimeOut error otherwise |
| Protocol.CoapProtocol.OnRequestMaxTransmissionSpanReached | src/coap/qcoapprotocol.cpp:239-246 | the TimeOut error |
| Protocol.CoapProtocol.OnMulticastRequestExpired | src/coap/qcoapprotocol.cpp:255-269 | finished without error, and the exchange is gone |
| Protocol.CoapProtocol.OnRequestAborted | src/coap/qcoapprotocol.cpp:705-713 | the exchange of that token is gone, if there is one |
| Protocol.CoapProtocol.CancelObserve | src/coap/qcoapprotocol.cpp:608-626 | marks the observation once and tells the reply, also when the request is not tracked |
| Protocol.CoapProtocol.GenerateUniqueMessageId | src/coap/qcoapprotocol.cpp:652-661 | the id drawn is free; none is returned only if no draw is free |
| Protocol.CoapProtocol.GenerateUniqueToken | src/coap/qcoapprotocol.cpp:668-682 | the token drawn is free and has the minimum size up to 8 bytes; none is returned only if no draw is free |
| Protocol.CoapProtocol.SetBlockSize | src/coap/qcoapprotocol.cpp:1100-1116 | takes 0 and the powers of two from 16 to 1024 and ignores every other value |
| Protocol.CoapProtocol.SetMaximumRetransmitCount | src/coap/qcoapprotocol.cpp:1078-1088 | the count is capped at 25 |
| Protocol.CoapProtocol.SetAckTimeout | src/coap/qcoapprotocol.cpp:1045-1049 | the timeout is taken as it is |
| Protocol.CoapProtocol.SetAckRandomFactor | src/coap/qcoapprotocol.cpp:1060-1067 | factors below 1 count as 1 |
| Protocol.CoapProtocol.SetMinimumTokenSize | src/coap/qcoapprotocol.cpp:1142-1153 | sizes outside 1 to 8 are ignored |
| Protocol.CoapProtocol.SetMaximumServerResponseDelay | src/coap/qcoapprotocol.cpp:1129-1133 | the delay is taken as it is |
| Protocol.PowersOfTwo | src/coap/qcoapprotocol.cpp:1104-1113 | the bit trick and the range check pick out exactly the block sizes |
| UserReplies.UserReply.SetRunningSlot | src/coap/qcoapreply.cpp:30-35 | token and message id are taken over |
| UserReplies.UserReply.SetNotifiedSlot | src/coap/qcoapreply.cpp:84-90 | notifies unless the reply is finished |
| UserReplies.UserReply.SetObserveCancelledSlot | src/coap/qcoapreply.cpp:42-53 | finishes, signalling it once |
| UserReplies.UserReply.SetContentSlot | src/coap/qcoapreply.cpp:61-75 | content is taken unless the reply is finished; an error code sets the error |
| UserReplies.UserReply.SetFinishedSlot | src/coap/qcoapreply.cpp:98-112 | finishes once, the error ahead of the signal |
| UserReplies.UserReply.SetErrorSlot | src/coap/qcoapreply.cpp:121-139 | a new error is set and emitted, in every state |
| UserReplies.UserReply.AbortRequest | src/coap/qcoapreply.cpp:379-391 | aborts once, emitting aborted and then finished |
| UserReplies.FinishedExactlyOnce | src/coap/qcoapreply.cpp:30-139 | over every sequence of slots and aborts, finished is emitted exactly once if anything finished the reply and never otherwise, with no notification behind it |
| UserReplies.FrozenWhenFinished | src/coap/qcoapreply.cpp:61-112 | a finished reply keeps content and code; only errors can still be emitted |
| UserReplies.ErrorBehindFinishedExactly | src/coap/qcoapreply.cpp:121-132 | a finished reply emits again if and only if it is told of an error it does not have |
| UserReplies.ErrorAfterFinished | src/coap/qcoapreply.cpp:379-391 | an abort between the two slots of a failed request makes error follow finished |
| Completion.CompletionAccounting | src/coap/qcoapprotocol.cpp:255-313 | in every run of engine, event queue and replies with no token used twice: a submitted reply that still exists is in the table, or finished, or will be by a queued slot; once the queue is drained and the exchange gone it has emitted finished exactly once, with no notification behind it |
| Completion.HandleAccounts | src/coap/qcoapprotocol.cpp:480-556 | every event that ends an exchange, cancelled or not, other than an abort, posts a finishing slot to its live reply |
| Completion.ReusedTokenDropsExchange | src/coap/qcoapprotocol.cpp:745-753 | a second request takes another exchange out of the table if and only if it has the same token, and nothing then finishes the first reply |
| Completion.AbortBeforeRunningIsLost | src/coap/qcoapreply.cpp:379-391 | a submitted reply that is aborted before the running slot sends an empty token, which changes nothing in the engine; the condition for all states is that of Aborts.AbortRemovesExactly |
| SystemRuns.ReachableTokens | src/coap/qcoapprotocol.cpp:107-145 | in every run of the system a reply owns at most one token, the one of its request or the one drawn when it was submitted |
| SystemRuns.AbortBeforeSubmissionIsLost | src/coap/qcoapprotocol.cpp:107-117 | an abort before submission reaches nobody, whatever token the reply carries: submitting stays possible and opens the exchange of the aborted reply |
| SystemRuns.FinishedStaysFrozen | src/coap/qcoapreply.cpp:61-112 | in every run of the system a reply that has finished keeps content and code for as long as it exists and emits nothing more but errors |
| ReplyHistory.EmitsExactly | src/coap/qcoapreply.cpp:42-139 | every slot and every abort adds to what has been emitted an error that is news and behind it what it announces itself, and nothing else |
| ReplyHistory.ContentIsTheLast | src/coap/qcoapreply.cpp:61-90 | over every sequence of slots and aborts: message and code are those of the last content before anything finished the reply, the initial ones without one, and the user has been notified exactly of the messages that were the last content at each notification before that |
| ReplyHistory.TokenIsTheLast | src/coap/qcoapreply.cpp:30-35 | over every such sequence: the reply carries token and id of the last running slot, and has announced an abort exactly if an abort was what finished it, under the token it had then |
| ReplyHistory.IsRunningExactly | src/coap/qcoapreply.cpp:322-326 | over every such sequence: the reply is running exactly if it has been told so and nothing has finished it |
| ReplyHistory.ErrorIsTheLast | src/coap/qcoapreply.cpp:121-139 | over every such sequence: the reply has the last error it was told of, by a content or final slot only while unfinished, and has emitted exactly the changes |
| ReplyHistory.SuccessfulExactly | src/coap/qcoapreply.cpp:340-345 | over every such sequence: it is successful exactly if something has finished it, its last content before that was a success and the last error it was told of is none |
| Deliveries.ReachableLog | src/coap/qcoapprotocol.cpp:145-148 | in every run of the system: posts under a token are for its owner, running slots carry the token they are logged under, a reply is told its token at most once |
| Deliveries.RepliesAreTheirOps | src/coap/qcoapprotocol.cpp:538-555 | in every run of the system: a live reply is what the slots delivered to it and its user have made of a new one, and these slots are the posts for it that have been delivered, in order |
| Aborts.RunningTellsTheToken | src/coap/qcoapreply.cpp:30-35 | in every run: a live reply whose running slot has been delivered carries the token and the id of that slot; before that, the token of its request |
| Aborts.AbortRemovesExactly | src/coap/qcoapprotocol.cpp:705-713 | in every reachable state with no abort on its way, aborting an unfinished reply whose exchange is open ends that exchange if and only if its request has a token of its own or the running slot has been delivered |
| Aborts.DestroyRemovesExactly | src/coap/qcoapreply.cpp:233-236 | the same for the destruction of an unfinished reply |
| Aborts.CancelMarksExactly | src/coap/qcoapprotocol.cpp:608-626 | in every reachable state cancelling an open observation marks it, so that the next frame is answered by a reset, if and only if its request has a token of its own or the running slot has been delivered; the reply is told of the cancellation in any case |
| EngineView.SystemIsEngineRun | src/coap/qcoapprotocol.cpp:107-382 | the engine of a run of the system has gone through a legal run of its own |
| EngineView.SeenFromSubmission | src/coap/qcoapprotocol.cpp:107-145 | from its submission on, a request of a system run is one that opens an exchange in an engine under a new token, which no later event opens again |
| UserView.LiveSlotsArePosted | src/coap/qcoapprotocol.cpp:538-555 | in every run: the slots that reach a live reply before it is finished are the first of those posted under its token |
| UserView.DownloadReachesUser | src/coap/qcoapreply.cpp:61-75 | in every run of the system, whatever its users and the network do: unless an empty message of the target cuts the exchange off, a reply whose code is no error has the whole body as its payload |
| UserView.DownloadedForUser | src/coap/qcoapprotocol.cpp:507-555 | without loss, duplication, abort and cancellation, once the queue is drained: the reply is successful, its payload is the body, its token the one of the exchange, and it has emitted finished and nothing else |
| UserView.UploadReachesUser | src/coap/qcoapreply.cpp:61-75 | in every run of the system: unless an empty message of the target cuts the exchange off early, a reply whose code is no error means that the whole payload has been sent |
| UserView.NotificationsReachUser | src/coap/qcoapreply.cpp:84-90 | in every run of the system: the user has been notified of the messages of the first complete responses, in order and each merged from its own frames, and of all of them once the queue is drained, while the reply is unfinished |
| UserView.FailureReachesUser | src/coap/qcoapprotocol.cpp:276-313 | a request that fails while its user is there and leaves it alone, once the queue is drained: the reply is finished, has the error that ended the exchange, has emitted it once and no other, and shows the error response if there was one |
| RequestFrames.FirstDatagram | src/coap/qcoapprotocol.cpp:107-180 | every user request that fits the wire: one datagram goes to its target and carries its method, version, type and options other than Block1 and Block2 under the given token and id; with the whole payload or, beyond one block, slice 0 with Block1, and with a Block2 option for block 0 of the block size if there is one |
| RequestFrames.RequestsExactly | src/coap/qcoapprotocol.cpp:217-378 | over every run: every request sent is that of the user, and each event adds exactly the requests it asks for: behind an echo the next slice to the target, behind a block the request for the next one to its sender, each under the fresh id; at a timeout with retransmissions left the same frame to the target; otherwise none |
| RequestFrames.RequestsInEngine | src/coap/qcoapprotocol.cpp:320-382 | the same in an engine with any number of other exchanges |
| Signals.EndsWhen | src/coap/qcoapprotocol.cpp:217-556 | an event ends an open exchange exactly if it is an error response, a final time-out, the expiry of a multicast request, an abort, or a complete response that is due to end it |
| Signals.SignalsExactly | src/coap/qcoapprotocol.cpp:276-550 | over every run: an exchange signals one multicast response for each successful content posted to its user, with the same message and sender and in order, if it announces them, and none otherwise; behind these one error, with its user and the error that ended it, exactly if it failed |
| Signals.SignalsInEngine | src/coap/qcoapprotocol.cpp:276-550 | the same for what is signalled under a token in an engine with any number of other exchanges |
| Signals.FailureComesLast | src/coap/qcoapprotocol.cpp:287-313 | over every run: while the exchange is open nothing posted says that the request is over; a failure is the last thing its user is told: the error response, or the error, and then finished without error |
| WireFormat.HeaderLayout | src/coap/qcoapinternalrequest.cpp:129-138 | version, type, token length, code, message id and token stand where section 3 of RFC 7252 has them |
| WireFormat.BlockLayout | src/coap/qcoapinternalrequest.cpp:270-304 | the value of a block option is number, M and SZX as in section 2.2 of RFC 7959, most significant byte first |
| WireFormat.TemperatureRequest | src/coap/qcoapinternalrequest.cpp:124-203 | the request of figure 16 of RFC 7252, byte by byte |
| WireFormat.TemperatureResponse | src/coap/qcoapinternalreply.cpp:51-107 | its response is read back |
| WireFormat.BlockwiseFirstFrame | src/coap/qcoapprotocol.cpp:150-155 | the first frame of a request without options of its own, byte by byte, for every block size: option 23, and option 27 in front of a payload that is larger |
| WireFormat.ObserveFirstFrame | src/coap/qcoapinternalrequest.cpp:124-203 | the first frame of an observation, byte by byte: option 6 |
| WireFormat.NamedErrorsExactly | src/coap/qcoapnamespace.h:18-24 | the error responses of section 12.1.2 of RFC 7252 have names of their own, except 4.15, which is unknown; 4.14 is known instead |
| Observation.CancelledStaysQuiet | src/coap/qcoapprotocol.cpp:608-626 | once cancelled, no continuation of the run posts a notification |
| Observation.CancelledFrameIsReset | src/coap/qcoapprotocol.cpp:357-364 | every accepted frame that is no error is answered by a reset with its message id, and the first complete response that is no empty acknowledgment ends the exchange |
| Observation.NotificationsAreFresh | src/coap/qcoapprotocol.cpp:499-547 | in every run: up to the end of the observation the posts are one notification per complete response, its payload merged from exactly the frames since the last, and behind its end there is no notification |
| Observation.ObservationEndsExactly | src/coap/qcoapprotocol.cpp:217-382 | exactly an error of the target, a time-out, the cancellation, an abort and the loss of the reply end an observation |
| Observation.ResponsesForgetThePast | src/coap/qcoapprotocol.cpp:809-817 | behind a complete response the frames are cut as if they were the first |
| Observation.ResponsesPartition | src/coap/qcoapprotocol.cpp:499-547 | every frame that counts is in exactly one response, in order, or still waits for one |
| Observation.CancelledAtMostOnce | src/coap/qcoapprotocol.cpp:608-626 | over every run of an exchange, also to its end, the reply is told of a cancellation at most once, and exactly when the exchange was marked |
| Multicasting.HostsAreSeparated | src/coap/qcoapprotocol.cpp:507-550 | a multicast request without Observe, every run, with errors, expiry, abort and loss of the reply at any point: before the first of these, what is stored and delivered for a host is a function of its own frames, and from it on nothing is delivered; with Observe see MulticastObservation |
| Multicasting.OtherHostsMakeNoDifference | src/coap/qcoapprotocol.cpp:510-517 | without Observe, any two runs in which a host sends the same frames before the first disturbance deliver the same for it |
| Multicasting.HostGetsItsOwnExactly | src/coap/qcoapprotocol.cpp:352-355 | without Observe, a host is delivered exactly what all its own frames make if and only if none of its complete responses comes after an accepted error of any host, the expiry, an abort or the loss of the reply |
| Multicasting.ErrorOfAnotherHostSilences | src/coap/qcoapprotocol.cpp:288-313 | two hosts: behind the error of one the complete response of the other is lost, though alone it is delivered |
| Multicasting.MulticastStarts | src/coap/qcoapprotocol.cpp:107-180 | such an exchange is what a multicast request without Observe opens |
| HostResponses.FirstResponse | src/coap/qcoapprotocol.cpp:507-545 | the first complete response of a host carries the merge of its frames |
| HostResponses.RepeatedLastFrame | src/coap/qcoapprotocol.cpp:536-545 | when the last frame comes twice, the same content is delivered twice if and only if its block had arrived before or no other block carried anything |
| HostResponses.RepeatedLastBlockCorrupts | src/coap/qcoapprotocol.cpp:536-536 | two blocks, the second repeated: the second content differs from the first, because the merged payload was written into the stored reply |
| HostResponses.LaterResponseExactly | src/coap/qcoapprotocol.cpp:507-545 | every complete response behind any frames of its host, block by block: the copy stored with earlier responses where there is one, its own otherwise; its own blocks if and only if what is stored is settled, its own merge then too and, with comparable copies, only then; in one frame, if and only if nothing stored carries anything or the block is stored and all of it merges to that payload |
| HostResponses.EachResponseIsOwnExactly | src/coap/qcoapprotocol.cpp:507-550 | every run without Observe: each complete response of a host is delivered with the merge of its own frames if none is late and the stored blocks are settled every time, and, with comparable copies, only then |
| HostResponses.SingleResponsesExactly | src/coap/qcoapprotocol.cpp:518-536 | responses of a host in one frame each are delivered with their own payloads if and only if every earlier payload is empty or the same |
| HostResponses.SecondResponseIsLost | src/coap/qcoapprotocol.cpp:536-536 | of two different responses of a host in one frame each the user gets the first one twice |
| MulticastObservation.WatchStarts | src/coap/qcoapprotocol.cpp:107-180 | a multicast request with Observe opens such an exchange |
| MulticastObservation.EveryWatch | src/coap/qcoapprotocol.cpp:507-550 | every run of a multicast observation: up to its end, stored are the frames since the last complete response of any host, and each notification carries the merge of those of its host; behind its end there is no notification |
| MulticastObservation.DeliveredIsOwnExactly | src/coap/qcoapprotocol.cpp:545-547 | the responses of a host are merged from exactly their own frames if and only if no complete response of another host comes between the first and the last frame of one |
| MulticastObservation.WatchedHostGetsItsOwnExactly | src/coap/qcoapprotocol.cpp:545-547 | every run: a host is heard with its own responses if none is late and none interleaved; payload by payload also where the blocks lost have come again, and, with comparable copies, only there; where no block comes twice, if and only if none is late or interleaved |
| MulticastObservation.ResponseOfAnotherHostCuts | src/coap/qcoapprotocol.cpp:545-547 | three frames: a response between the two blocks of another host makes the user get the second block alone |
| MulticastExpiry.ExpiryWaitsForTimelyAnswers | src/coap/qcoapprotocol.cpp:124-135 | over all runs that nothing cuts off: the exchange is open when any answer within the assumed delays arrives, and can expire, if and only if their sum fits 31 bits |
| MulticastExpiry.TimerCoversTimelyAnswers | src/coap/qcoapinternalrequest.cpp:637-641 | the expiry timer is started and not due before such an answer if and only if that sum fits 31 bits |
| MulticastExpiry.ExpiryDeadlineExactly | src/coap/qcoapprotocol.cpp:189-209 | over every run, whatever arrives: as long as the exchange is open its expiry timer, given an interval of 31 bits, runs from the last request on |
| MulticastExpiry.ExpiryNeverStarts | src/coap/qcoapprotocol.cpp:124-135 | with a server response delay of 2 200 000 000 ms no expiry timer is started |
| SeparateResponses.AckOnlyStops | src/coap/qcoapprotocol.cpp:499-505 | an empty acknowledgment stops the retransmission and stores, posts and sends nothing |
| SeparateResponses.SeparateResponsesAgree | src/coap/qcoapprotocol.cpp:348-364 | any number of empty acknowledgments ahead of a response make no difference to what is posted and sent |
| SeparateResponses.AckLeavesNoTimer | src/coap/qcoapprotocol.cpp:348-350 | in the engine no timer of the exchange can fire right after an empty acknowledgment; TransmissionTimers has this for all runs |
| TransmissionTimers.ReachableTimers | src/coap/qcoapinternalrequest.cpp:426-471 | in every reachable state the timers of an exchange are determined by its transmission: none when stopped, and in progress each one that was given an interval of 31 bits |
| TransmissionTimers.TimerRunsExactly | src/coap/qcoapinternalrequest.cpp:426-440 | in every reachable state a unicast exchange has a running timer if and only if its transmission is in progress and the transmit wait or the present timeout is an interval of 31 bits |
| TransmissionTimers.StoppedExactly | src/coap/qcoapprotocol.cpp:348-378 | an accepted frame that leaves its exchange open leaves a transmission in progress if and only if it asks for another block; a notification or an empty acknowledgment leaves no timer |
| TransmissionTimers.EndsExactly | src/coap/qcoapprotocol.cpp:217-246 | when nothing more is heard, every run that has come to rest has ended the exchange if and only if its transmission was in progress, given a transmit wait of 31 bits, and otherwise if and only if the retry timer could run through all remaining waits; timers fire only a bounded number of times |
| TransmissionTimers.StoppedNeverEnds | src/coap/qcoapprotocol.cpp:348-350 | an exchange left open by a complete response, a notification or an empty acknowledgment, is never given up |
| SeparateResponses.AnswersExactly | src/coap/qcoapprotocol.cpp:564-598 | over every run, each accepted Confirmable frame that is no error gets one 4-byte acknowledgment with its id, each accepted frame of a cancelled observation one reset, in order, and no other empty message is sent |
| Retransmission.ElapsedFormula | src/coap/qcoapinternalrequest.cpp:426-440 | doubling the wait each time puts retransmission k at t0 * (2^k - 1) |
| Retransmission.UnansweredRun | src/coap/qcoapprotocol.cpp:217-231 | every run of an unanswered Confirmable request, with any settings: byte-identical retransmissions on the doubling schedule, then TimeOut by the retry timer or by the transmit-wait timer, whichever of those running comes first |
| Retransmission.ReliableTransmission | src/coap/qcoapinternalrequest.cpp:426-440 | with a transmit wait below 2^31 ms, every run: sent exactly maximumRetransmitCount + 1 times, wait k being t0 * 2^k, the last one within MAX_TRANSMIT_SPAN, given up within MAX_TRANSMIT_WAIT |
| Retransmission.NextOnSchedule | src/coap/qcoapprotocol.cpp:217-231 | when the timers suffice, an unanswered run can always go on with the next retransmission on schedule, up to the time-out itself |
| Retransmission.FullyTriedExactly | src/coap/qcoapinternalrequest.cpp:426-440 | an unanswered request is tried all the way, in some run and then in every run, if and only if every wait is an interval the retry timer can be started with and the transmit-wait timer, if it runs, is not shorter than the waits together |
| Retransmission.TimersSufficeExactly | src/coap/qcoapinternalrequest.cpp:619-623 | that is so for every permitted first timeout if and only if the longest last wait fits 31 bits and the true transmit wait does too whenever the computed one starts its timer |
| Retransmission.WaitTimerRunsExactly | src/coap/qcoapinternalrequest.cpp:619-623 | the transmit-wait timer is started with the value of the formula if and only if that value fits 31 bits |
| Retransmission.SpanAndWaitHoldExactly | src/coap/qcoapprotocol.cpp:936-957 | every permitted first timeout keeps to the computed span, and to the computed wait, if and only if the scaled value of the formula fits 32 bits |
| Retransmission.WaitOverflows | src/coap/qcoapprotocol.cpp:953-957 | with a timeout of 2000 ms and 21 retransmissions the wait is too short |
| Retransmission.ScaledWaitOverflows | src/coap/qcoapprotocol.cpp:953-957 | with 2000 ms, 20 retransmissions and factor 1.5 no product wraps, yet the scaled wait does, and the last wait starts no timer |
| Retransmission.WaitTimerNeverStarts | src/coap/qcoapinternalrequest.cpp:619-623 | with 19 retransmissions the wait is computed right, 3 145 725 000 ms, and starts no timer |
| Retransmission.InitialTimeoutIsPermitted | src/coap/qcoapprotocol.cpp:157-167 | the first timeout lies between the timeout and its scaled value |
| Retransmission.NonConfirmableRun | src/coap/qcoapprotocol.cpp:165-167 | every run of an unanswered request that is not Confirmable: sent once, given up with TimeOut when the first of its running timers runs out |
| Retransmission.NextBlockWaitsDoubled | src/coap/qcoapinternalrequest.cpp:460-471 | the next block of a transfer starts with the wait the previous one had got to |
| WireRequests.RequestBlockAsks | src/coap/qcoapinternalrequest.cpp:212-223 | the request so turned, read back from its frame, asks for that block |
| WireRequests.SendBlockCarries | src/coap/qcoapinternalrequest.cpp:232-244 | the request so turned carries that slice and says which it is and whether more follow |
| Download.DownloadIsSound | src/coap/qcoapprotocol.cpp:366-381 | in every run against a server that answers requests read off the wire, with loss, duplication and delay, the stored replies are a prefix of the blocks and a success content is the whole body, if and only if no Reset or other empty message of the target reaches the open exchange of a live user, an empty body aside |
| Download.DownloadDeliversOnlyTheBody | src/coap/qcoapprotocol.cpp:107-180 | the same, both ways, from the user request on |
| Download.TruncatedDownload | src/coap/qcoapprotocol.cpp:499-555 | a Reset behind k blocks delivers these k blocks as a success, which is not the body |
| Download.DownloadTakesCountReplies | src/coap/qcoapprotocol.cpp:507-555 | without loss and duplication the body is delivered with reply number ceil(len/size), neither sooner nor later, each reply having the next block asked for |
| Download.InOrderIsServed | src/coap/qcoapprotocol.cpp:372-378 | such a run is one the server can cause |
| Download.DownloadFailsBeyond | src/coap/qcoapinternalrequest.cpp:251-260 | a body of more than 2^20 blocks is never delivered |
| Download.ServerFrameServes | src/coap/qcoapinternalreply.cpp:51-107 | the frame a server encodes for a block is received as that block |
| Upload.UploadIsSound | src/coap/qcoapprotocol.cpp:366-370 | in every run against a server that echoes Block1, the blocks sent assemble to a prefix of the payload, and success is reported only after the server can hold all of it, M clear on the last block only, if and only if no Reset or other empty message of the target comes while blocks are left to send |
| Upload.UploadTakesCountRequests | src/coap/qcoapinternalrequest.cpp:232-244 | without loss and duplication exactly ceil(len/size) requests are sent, one per block and in order |
| Upload.TruncatedUpload | src/coap/qcoapprotocol.cpp:499-555 | a Reset behind any block but the last makes the user believe that all has been uploaded |
| Upload.UploadFailsBeyond | src/coap/qcoapinternalrequest.cpp:251-260 | a payload of more than 2^20 blocks is reported as uploaded if and only if an empty message cuts the transfer off |
| Upload.EchoSetsPayload | src/coap/qcoapprotocol.cpp:366-370 | an unasked Block1 echo with M set empties the payload of a client without a block size |
| Upload.ProductsFit | src/coap/qcoapinternalrequest.cpp:232-244 | the products stay at or below 2^30 |
| Upload.EchoFrameEchoes | src/coap/qcoapinternalreply.cpp:148-171 | the frame a server encodes for an echo is received as that echo |
| UploadDelivery.UploadReachesServer | src/coap/qcoapprotocol.cpp:366-370 | over any network that loses, repeats, delays and reorders, with a server that echoes only blocks it has received: whenever a success has been reported the server holds the whole payload, if and only if no empty message of the target has ended the exchange before that |
| CombinedTransfer.CombinedTransferExactly | src/coap/qcoapprotocol.cpp:366-381 | a blockwise response behind a blockwise request, without loss and duplication: the whole payload is sent, the response fetched, and the content is its body if and only if the first echo that carries anything carries what block 0 of the response does |
| EngineRuns.ReachesExactly | src/coap/qcoapprotocol.cpp:330-346 | a frame is processed for an exchange whose token it does not carry if and only if it has no token or one of no exchange, and the message id of that request |
| EngineRuns.DownloadInEngine | src/coap/qcoapprotocol.cpp:320-382 | the download theorem, both ways, on the raw frames an engine with any number of other exchanges receives |
| EngineRuns.UploadInEngine | src/coap/qcoapprotocol.cpp:320-382 | the upload theorem, both ways, on the raw frames an engine with any number of other exchanges receives |
| EngineRuns.CancelledInEngine | src/coap/qcoapprotocol.cpp:320-382 | a cancelled observation stays quiet in every continuation of the engine |
| EngineRuns.MulticastInEngine | src/coap/qcoapprotocol.cpp:320-382 | the multicast theorems with and without Observe in an engine with any number of other exchanges |
| EngineRuns.NotificationsInEngine | src/coap/qcoapprotocol.cpp:320-382 | the same for the notifications of an observation |
| EngineRuns.AnswersInEngine | src/coap/qcoapprotocol.cpp:564-598 | the empty messages an exchange makes the engine send are exactly those it owes |
| EngineRuns.EndsInEngine | src/coap/qcoapprotocol.cpp:217-246 | an exchange that hears nothing more from some point of the run on has ended, at rest, if and only if it was certain to end at that point |
| EngineRuns.ReliableInEngine | src/coap/qcoapinternalrequest.cpp:426-440 | the theorem on reliable transmission in the engine |
| Connection.QCoapConnection.SendRequest | src/coap/qcoapconnection.cpp:162-174 | enqueues, then binds or writes |
| Connection.QCoapConnection.StartToSendRequest | src/coap/qcoapconnection.cpp:215-224 | writes all pending frames, first in first out |
| Connection.QCoapConnection.OnBound | src/coap/qcoapconnection.cpp:132-141 | the bound handler writes all pending frames |
| Connection.QCoapConnection.Disconnect | src/coap/qcoapconnection.cpp:262-270 | drops what is pending |
| Connection.RunConserves | src/coap/qcoapconnection.cpp:162-224 | over every run, the frames enqueued are those written and those dropped, each in order, followed by those waiting; nothing waits while bound |
| Connection.NothingLostWithoutDisconnect | src/coap/qcoapconnection.cpp:162-224 | without a disconnect, written and waiting frames are all the frames, in order |
| Connection.FatesExactly | src/coap/qcoapconnection.cpp:132-270 | over every run, from the events alone: the connection is bound exactly if a bind has been reported since the last disconnect; a frame has been written exactly if a bind was reported between the same two disconnects, ahead of it or behind it, and dropped exactly if a disconnect came and no such bind; all in order |
| Connection.FateIsFinal | src/coap/qcoapconnection.cpp:262-270 | what has been written stays written, and a frame dropped by a disconnect is never written afterwards |
| LinkFormat.ResourcesFromCoreLinkList | src/coap/qcoapresourcediscoveryreply.cpp:104-140 | the nested loops compute `Parse` |
| LinkFormat.ParseComposes | src/coap/qcoapresourcediscoveryreply.cpp:104-140 | parsing two payloads joined by a comma gives the resources of the first, then of the second |
| LinkFormat.DiscoveryReply.SetContent | src/coap/qcoapresourcediscoveryreply.cpp:22-42 | a finished reply keeps everything; otherwise message and code are stored, an error code sets the error, and any other appends the resources of the payload |
| LinkFormat.AccumulationIsOneParse | src/coap/qcoapresourcediscoveryreply.cpp:22-42 | the list accumulated over any contents of one sender, errors among them, is one parse of the comma-joined successful payloads |
| LinkFormat.RenderParse | src/coap/qcoapresourcediscoveryreply.cpp:104-140 | parsing a rendering of resources with non-empty paths and no separators or quotes in their values, with every value in quotes or none, gives them back |
| LinkFormat.FieldsAreTheLast | src/coap/qcoapresourcediscoveryreply.cpp:115-133 | every field of a link is that of the last parameter with its name, whatever stands between, and has its initial value without one |
| LinkFormat.ParsedIsWellFormed | src/coap/qcoapresourcediscoveryreply.cpp:104-140 | whatever the payload: every resource has the sender as host and a path, no quote is left in title, type and interface, and its numbers are 32-bit numbers |
| LinkFormat.QuotesMakeNoDifference | src/coap/qcoapresourcediscoveryreply.cpp:121-130 | quotes in a value make no difference, wherever they stand |
| LinkFormat.PaddedUnsigned | src/coap/qcoapresourcediscoveryreply.cpp:127-130 | a decimal number with white space around it and with or without a plus sign is itself in range and 0 out of range |
| LinkFormat.PaddedNegative | src/coap/qcoapresourcediscoveryreply.cpp:127-130 | the same behind a minus sign; as an unsigned number 0 |
| LinkFormat.StrangeIsZero | src/coap/qcoapresourcediscoveryreply.cpp:127-130 | any other character makes the number 0 |
| LinkFormat.DiscoveryIsTheLast | src/coap/qcoapresourcediscoveryreply.cpp:22-42 | over any contents: an unfinished discovery reply has message and code of the last one, has reported one list for each that is no error, and has the error of the last that is one; a finished one keeps everything |

## Left out

- Codec.CreateFromFrame: frames whose reading would leave the frame or an empty Block2 value are excluded by its precondition; the library does not check for them.
- Blocks.ComputeNextBlockToSend: an empty Block1 value is excluded by its precondition; the library would read outside it.
- Download.DownloadIsSound: the server keeps one block size and sends blocks with Block2 only; requests that observe or go to a multicast group have their own theorems in Observation, Multicasting, HostResponses and MulticastObservation.
- HostResponses.EachResponseIsOwnExactly: that unsettled blocks change the payload is stated for comparable copies; blocks of different lengths can join to the same bytes.
- MulticastObservation.WatchedHostGetsItsOwnExactly: the same for blocks lost to another host; contents posted behind a cancellation are not notifications and are not counted.
- Upload.UploadIsSound: the client keeps its block size, the echo repeats the block number, and the response to the last block is not itself blockwise; that case is in CombinedTransfer, without loss and duplication.
- Retransmission.ReliableTransmission: assumes an acknowledgment timeout above zero, since with a zero timeout the retry timer is never started, and a transmit wait below 2^31 ms; Retransmission.FullyTriedExactly covers all settings.
- Exchanges.MaximumTransmitWait: converting a real value that is out of range to 32 bits is undefined in the source; here it wraps, as through a 64-bit integer.
- Requests.Armed: that a timer with a negative interval does not run is the behaviour of QTimer, which is not part of this model.
- Protocol.CoapProtocol.GenerateUniqueMessageId: works on a finite sequence of draws; nothing says that drawing ends with certainty.
- Protocol.CoapProtocol.CancelObserve: the variant that takes a URL is left out with everything about URLs.
- LinkFormat.ResourcesFromCoreLinkList: text is taken as it is, without decoding UTF-8.
- RequestFrames.FirstDatagram: requests whose options are numbered above 255 or longer than 524 bytes are left out, since they do not survive the codec.
- UserView.DownloadedForUser: the user neither aborts nor cancels the request at any time of the run; the same holds for UserView.FailureReachesUser.
- Signals.SignalsExactly: the signal that passes on a reply's own finished is not modelled beside it.
- Completion.CompletionAccounting: takes the sequence of slots each reply is sent as first in, first out, and assumes that no token is used twice.
- URL handling and the Uri options made from a URL: the target is an abstract host with a multicast flag.
- UDP sockets, DTLS and security configuration: the connection reports that it is bound, and writes.
- QCoapClient: it forwards calls to the engine.
- Connection errors: they are signalled without a reply and change no state.
- Warnings about the sizes of options, and the byte loops of uint option values: they have no effect on the frames modelled.
- Ownership, sharing and registration of Qt objects: the loss of a reply object is an event of the engine.
