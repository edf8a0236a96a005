# A ZMTP 3.1 publishing endpoint, in Dafny

The repository is a `no_std` library that speaks ZMTP 3.1 (37/ZMTP) as a PUB or RADIO endpoint:
a streaming frame codec, a sans-IO connection state machine with the NULL and PLAIN handshakes,
bounded subscription and group tables, and drivers that tie a connection to a transport. This
project models those layers and proves what each promises, up to whole sessions: from a new
driver, over any way the network cuts the peer's bytes, to what is published.

Each layer is stated twice. A specification on values says what one call does, with the code's
branches, constants and errors; a class with the source's fields and loops is proved to compute
exactly that. The theorems are about the specification, so they hold of the classes.

| file | contents |
|---|---|
| Bytes.dfy | octets, big-endian numbers, Option and Result |
| FrameSpec.dfy | frames: the byte-at-a-time automaton, one call of the decoder, encoding, round trips |
| FrameCodec.dfy | the `FrameDecoder` class and the header encoders |
| Greeting.dfy, Null.dfy, Plain.dfy | greeting, READY and ERROR, HELLO and WELCOME |
| WireNames.dfy | every name on the wire, read as text |
| SubTable.dfy, GroupTable.dfy | the two tables, with `swap_remove` |
| ConnSpec.dfy | the connection as a state machine on values |
| Handshake.dfy | every interleaving of calls: invariant, order of milestones, permanent failure |
| Connection.dfy | the `Connection` class |
| DriverSpec.dfy | `poll`, `drain_buffer` and `publish` on values, over a scripted transport |
| ByteMachine.dfy | the driver as a byte-at-a-time machine, and that a drain is a run of it |
| Polls.dfy | runs of polls: conservation, progress, chunk-independence, bounds, async agreement |
| Transcripts.dfy | every run of polls and publishes: the grammar of what is written, item by item |
| Refusals.dfy | a driver's refusal is final |
| Established.dfy | what an established connection makes of a stream; tables as bag and set; PONGs |
| EndToEnd.dfy | whole sessions with an acceptable peer |
| AnyPeer.dfy | every byte string a peer can send: the handshake, what follows it, and what is published at any time |
| RefusedWrites.dfy | what a refused write does to a drain: the exact condition of conservation, and what is read twice |
| RefusedAnswers.dfy | what a refused WELCOME or READY leads to |
| Driver.dfy | the `Transport` and `Driver` classes |

Choices that matter when reading:

- `usize` is 64 bits wide. With 32 bits the cast at src/frame.rs:229 truncates and the sum at
  src/null.rs:205 can overflow, so the size claims would not carry over.
- `Connection` and `RadioConnection` are the same text but for their READY commands, their table
  and the version 3.0 subscription messages, so one specification and one class carry a `Role`.
  The same goes for `Driver` and `RadioDriver`; a RADIO driver exists for NULL only.
- The transport is a script of what its reads and writes will do, and the bytes sent. Reads may
  deliver any pieces, fail, or find end of file; writes may be refused part of the way.
- The authenticator is an arbitrary function of username and password.
- `hide` at the head of a proof keeps definitions that it does not need folded.

Where the code differs from its own documentation, the model follows the code:

- `feed` says that it consumes less than its input only at a frame boundary. It also consumes
  nothing, without an error, when an accepted peer greeting is complete before ours was written;
  `Handshake.StallsExactly` says exactly when, and `Handshake.LateGreeting` what gets it going again.
- A decode or greeting error does not set the state to `Failed`, as `Handshake.FailedExactly` says;
  `Handshake.FailureIsPermanent` shows that the connection is stuck all the same.
- When the early check at the 11th greeting byte refuses and more bytes follow, how many of them
  are stored depends on how the stream was cut. Nothing else ever does: `Polls.CutShowsExactly`
  gives the condition, and `Polls.CutShowsWitness` an input of 12 bytes.
- On an error `drain_buffer` leaves its buffer as it was, though the connection may have moved on:
  always after a refused write, and after a refused `feed` unless it was the first of the drain
  (`RefusedWrites.ConservationExactly`). What that leads to depends on what was refused:
  - after a PONG, the whole buffer is read again from a frame boundary
    (`RefusedWrites.BufferReadTwice`). If it started at one, its requests are applied twice, and a
    SUBSCRIBE takes two CANCELs to undo (`RefusedWrites.DoubledSubscription`); if it started inside
    a frame, requests can be read that the peer never made (`RefusedWrites.PhantomSubscription`);
  - after READY, the buffer is read again for the peer's READY, and ours is not sent again
    (`RefusedAnswers.RefusedReadyMeaning`). That fails if the whole greeting is in the buffer
    (`RefusedAnswers.RefusedReadyIsFatal`); for a suitable cut of a suitable greeting, the driver
    reports an established connection (`RefusedAnswers.EstablishedWithoutReady`);
  - after WELCOME, every later poll says `WrongState` (`RefusedAnswers.RefusedWelcomeIsStuck`).
- The decoder takes an 8-byte size field on a short body too, so decoding is not injective;
  `FrameSpec.DecoderExactness` gives the accepted byte strings exactly.

## Model

| member | source | states |
|---|---|---|
| FrameSpec.ChunkIndependence | src/frame.rs:168-293 | from any decoder state, feeding a byte string in any pieces finds the same frames, first error and final state as the byte-at-a-time automaton on the whole |
| FrameSpec.FeedIsDecode | src/frame.rs:168-293 | one call of `feed`, stopping at a frame boundary or an error, is the automaton run up to that point |
| FrameSpec.DecoderExactness | src/frame.rs:168-293 | input decodes to a list of frames and ends between frames if and only if it is those frames one after the other, each with a 1-byte (when it fits) or 8-byte size, no command with MORE, and no body over the capacity |
| FrameSpec.FrameListRoundTripChunked | src/frame.rs:22-69 | encoding any list of frames that fit and decoding it, cut anywhere, gives back the list and the initial state |
| FrameSpec.EncodingInjective | src/frame.rs:22-69 | two lists of frames with the same encoding are the same list |
| FrameSpec.FeedEncoded | src/frame.rs:168-293 | one call takes exactly one encoded frame |
| FrameSpec.HeaderBytes | src/frame.rs:22-69 | a header is the flags 0 to 7 (but 5 and 7, which are no frame's) with MORE as bit 0, a long size as bit 1 and a command as bit 2, and the size on 1 byte or, big-endian, on 8 |
| FrameSpec.RefusedExactly | src/frame.rs:168-293 | between frames a call is refused for its flags if and only if the first byte is none of 0, 1, 2, 3, 4 and 6; for its size if and only if all of it is there and over the capacity; and for nothing else |
| FrameCodec.EncodeMessageFrame | src/frame.rs:22-44 | the header is written at the front of the buffer and the rest kept, or the buffer is too small and untouched |
| FrameCodec.EncodeCommandFrame | src/frame.rs:52-69 | the same for command headers |
| FrameCodec.FrameDecoder.Feed | src/frame.rs:168-293 | the in-place decoder computes exactly the specified call, from any valid state, whatever stale bytes its buffers hold |
| FrameCodec.FrameDecoder.Reset | src/frame.rs:151-154 | any state, a poisoned one too, goes back to the initial one |
| Greetings.GreetingExactness | src/greeting.rs:83-133 | a 64-byte greeting is accepted with a minor version if and only if it has this mechanism's layout, zero-padded, with as-server 0 |
| Greetings.PartialAgrees | src/greeting.rs:66-74 | what the check of the first 11 bytes refuses, the full check refuses for the same reason; and the full check gives a wrong signature or a wrong major version if and only if the early one gives that error |
| Greetings.GreetingErrors | src/greeting.rs:83-133 | which of the four errors a 64-byte greeting is refused for: signature, then major version, then a mechanism field that is not the padded name, and last the as-server byte |
| Greetings.OwnGreetingBytes | src/greeting.rs:37-58 | each of our 64 bytes: FF, 7F, version 3.1, the name NULL or PLAIN, as-server 1 for PLAIN and for no other, and zeros |
| Greetings.OwnGreetingAccepted | src/greeting.rs:37-58 | our NULL greeting is one we accept, of minor version 1; our PLAIN one is refused for its as-server byte and for that only |
| Greetings.EncodeGreeting | src/greeting.rs:37-45 | the buffer becomes our NULL greeting |
| Greetings.EncodePlainGreeting | src/greeting.rs:50-58 | the buffer becomes our PLAIN greeting, claiming the server role, as `Greetings.OwnGreetingBytes` spells it out |
| NullMechanism.ReadyExactness | src/null.rs:167-219 | READY gives value `v` if and only if the body is the READY name, well-formed properties of other names, a Socket-Type property (in any case) of value `v`, and any suffix; WrongSocketType if and only if all the rest is well-formed properties without one |
| NullMechanism.CaseDoesNotMatter | src/null.rs:213-216 | a property name passes the comparison if and only if it is 11 bytes, each that of "socket-type" or of "SOCKET-TYPE" |
| NullMechanism.ParseReadyCommand | src/null.rs:167-219 | the indexed loop computes that parse on any body, with every index in bounds |
| NullMechanism.ParseReadyFrom | src/null.rs:138-163 | a peer's type is given if and only if READY gives the socket type SUB or XSUB to a PUB, or DISH to a RADIO, each for its own type and nothing else |
| NullMechanism.ReadyErrors | src/null.rs:138-219 | which of the five errors is given for what: no command, an ERROR, another name, no whole name or metadata cut short, or whole metadata without an acceptable type |
| NullMechanism.ReadyFrameIsReady | src/null.rs:9-23 | our constant READY frames are the command READY with our own socket type, and parse as such |
| NullMechanism.EncodeReady | src/null.rs:60-79 | our READY is written at the front of the buffer, or the buffer is too small and untouched |
| NullMechanism.EncodeError | src/null.rs:229-246 | an ERROR command of up to 248 bytes of reason is written, or one of the two errors is given and nothing written |
| PlainMechanism.HelloExactness | src/plain.rs:73-115 | credentials are read if and only if the body starts with the HELLO command for them |
| PlainMechanism.HelloErrors | src/plain.rs:73-115 | which of the four errors is given for what: no command, an ERROR, another name, or a body with no room for its name or for the credentials |
| PlainMechanism.EncodeWelcome | src/plain.rs:55-61 | WELCOME is written at the front of the buffer, or the buffer is too small and untouched |
| PlainMechanism.WelcomeFrameIsWelcome | src/plain.rs:46-48 | the constant is the encoding of the WELCOME command |
| WireNames.HandshakeNames | src/null.rs:9-23 | the names of the handshake commands, mechanisms, socket types and the property are those words |
| WireNames.CommandNames | src/connection.rs:315-355 | so are SUBSCRIBE, CANCEL, JOIN, LEAVE, PING and PONG |
| WireNames.ErrorCommand | src/connection.rs:425-427 | the 28 bytes of the ERROR command we send, which need a buffer of that size |
| Entries.RemovedMultiset | src/sub_table.rs:65-69 | removal with `swap_remove` takes away exactly one occurrence, if there is one |
| SubTable.SubTable.Subscribe | src/sub_table.rs:54-62 | a prefix is added as one more entry, or refused with no change |
| SubTable.SubTable.Cancel | src/sub_table.rs:65-69 | one occurrence is removed, found by a scan |
| SubTable.SubTable.IsMatch | src/sub_table.rs:75-77 | true if and only if some entry is a prefix of the topic |
| SubTable.SubscribedIsBag | src/sub_table.rs:54-62 | a subscription adds one to the bag, unless it is too long or, if not, there is no room, with the error for each |
| SubTable.MatchesByMultiset | src/sub_table.rs:75-77 | matching depends on the multiset of entries only |
| SubTable.MatchesIsPrefixCount | src/sub_table.rs:75-77 | a topic matches if and only if some prefix of it has a positive count |
| GroupTable.JoinedIsSet | src/group_table.rs:53-67 | entries stay distinct, and a join is insertion in a bounded set, where a duplicate succeeds even when it is full |
| GroupTable.LeftIsSet | src/group_table.rs:70-74 | after leaving, entries are distinct and none is the group; all others remain |
| GroupTable.GroupTable.Join | src/group_table.rs:53-67 | the scan and push compute the join, and keep the entries distinct |
| GroupTable.GroupTable.Leave | src/group_table.rs:70-74 | the group is gone and the others are kept |
| GroupTable.GroupTable.IsMatch | src/group_table.rs:78-80 | true if and only if the group is an entry |
| ConnSpec.PublishRoundTrip | src/connection.rs:396-419 | what is published decodes to the topic with MORE and the payload without, and nothing else; nothing is written if and only if an established connection has no match |
| Handshake.RunInv | src/connection.rs:163-307 | after any calls in any order: past the greeting both greetings were exchanged, the stored 64 bytes pass this mechanism's parser and give the peer's minor version; NULL is never in a PLAIN state nor PLAIN in `Ready`; established implies our READY (and WELCOME) was sent; the table is within its capacities |
| Handshake.HandshakeOrder | src/connection.rs:163-307 | after any calls, the milestones reached (the writes that succeeded and what was accepted) are the mechanism's handshake, in its order, each once, up to exactly the current state; so established implies accepted peer greeting, for PLAIN accepted credentials, then WELCOME, READY, and an accepted peer READY |
| Handshake.WritersExactly | src/connection.rs:163-209 | after any calls, each of our greeting, WELCOME and READY is written if and only if it is the next step of that handshake and the buffer has room for its 64, 10, and 27 or 29 bytes; out of turn, and a second time, it is `WrongState`, and without room its own error |
| Handshake.PongExactly | src/connection.rs:435-452 | after any calls, a queued PONG is written as a whole command if there is room, and is then queued no longer |
| Handshake.FinalStates | src/connection.rs:221-232 | no calls at all leave Established or Failed |
| Handshake.FailureIsPermanent | src/connection.rs:234-313 | after any calls, an error of `feed` is either a greeting, decode, NULL or PLAIN error, and then no later calls at all advance the handshake, change the table or queue a PONG; or it is `WrongState`, for a call before our answers were written or on a failed connection, and everything is as it was |
| Handshake.FailedExactly | src/connection.rs:234-307 | after an error of `feed` the state is Failed if and only if the error is of NULL or PLAIN; a greeting or decode error leaves the state as it was |
| Handshake.StallsExactly | src/connection.rs:234-271 | non-empty input is neither consumed nor refused if and only if an accepted greeting is complete and ours has not moved the state on |
| Handshake.StallIsReached | src/connection.rs:249-268 | any acceptable greeting fed to a new connection at once leads to that state |
| Handshake.LateGreeting | src/connection.rs:249-268 | in that state, writing our greeting and feeding anything completes the exchange |
| Connections.Connection.constructor | src/connection.rs:86-102 | a new connection is in the initial state, with empty tables |
| Connections.Connection.WriteGreeting | src/connection.rs:163-179 | writes our greeting once, or gives its error and changes nothing |
| Connections.Connection.WriteReady | src/connection.rs:188-209 | writes READY once, when it is due, or gives its error and changes nothing |
| Connections.Connection.WriteWelcome | src/connection.rs:461-468 | writes WELCOME once, when it is due, or gives its error and changes nothing |
| Connections.Connection.WritePong | src/connection.rs:435-452 | writes and clears the queued PONG, or writes nothing |
| Connections.Connection.WriteError | src/connection.rs:425-427 | writes the ERROR command, and leaves the connection alone |
| Connections.Connection.Feed | src/connection.rs:221-359 | the field-updating `feed` of the PUB and RADIO (src/radio_connection.rs:223-347) connections computes the specified step, in every state |
| Connections.Connection.FeedGreeting | src/connection.rs:234-271 | greeting bytes are stored up to 64, with the early and the full check |
| Connections.Connection.OnPeerFrame | src/connection.rs:315-355 | the dispatcher updates the table, queues a PONG, or does nothing, as specified for both roles |
| Connections.Connection.MakePublishHeaders | src/connection.rs:368-386 | both headers, if and only if established and matching |
| Connections.Connection.Publish | src/connection.rs:396-419 | the four parts are copied to the front of the buffer and the rest kept, or nothing is |
| ByteMachine.FeedProgress | src/connection.rs:234-313 | in every state a driver can be in, non-empty input is refused or some of it consumed |
| ByteMachine.FeedIsPump | src/connection.rs:221-359 | a call of `feed` of any length, with the driver's reply, is a run of single-byte calls with theirs, and a refusal is the same refusal |
| ByteMachine.DrainIsPump | src/io/sync.rs:142-198 | a drain consumes a prefix of the buffer as the byte machine does, writing the same, or fails as it does |
| ByteMachine.DrainProgress | src/io/sync.rs:142-198 | for any transport, a drain keeps the driver's invariant (no PONG queued at any loop head), consumes something, and leaves bytes only at the one handshake turn |
| Polls.PollsAgree | src/io/async.rs:632-665 | for any transport, in every state a driver can be in, the async poll without a progress check and the blocking one give the same result and state, and only an empty buffer leads to a read |
| Polls.PollAnswers | src/io/sync.rs:100-140 | on any transport, a poll with bytes buffered does not read; without, end of file is `IoError(0)`, every time, and a failing read its own error, with all else as it was; `Ok` comes only after data, and says whether the connection is established |
| Polls.ReadsAtMost512 | src/io/sync.rs:130-135 | a read takes at most 512 bytes, and leaves the rest for the next |
| Polls.OwedReadyFirst | src/io/sync.rs:108-121 | a READY still owed is sent before anything else, and the poll ends there |
| Polls.RefusalReported | src/io/sync.rs:181-189 | a refused `feed` is what the poll reports, on any transport; if it failed the connection, ERROR is written first, however that write goes |
| Polls.PollAdvances | src/io/sync.rs:108-140 | each poll consumes from the stream in order and keeps the rest, or is refused; a failing read loses nothing |
| Polls.BytesAreConserved | src/io/sync.rs:123-198 | after any number of polls without a refusal, the bytes read are the bytes consumed by `feed`, in order, followed by the buffer |
| RefusedWrites.ConservationExactly | src/io/sync.rs:142-198 | for any transport, what a drain had buffered is what its loop consumed followed by what is then buffered, if and only if the drain succeeds or its very first `feed` is refused; the connection is where the bytes consumed lead, or, for another refused `feed`, where that one left it |
| RefusedWrites.EstablishedConservation | src/io/sync.rs:142-198 | on an established connection whose writes are taken, bytes are conserved if and only if the buffer holds no decode error, or no whole frame before it |
| RefusedWrites.BufferReadTwice | src/io/sync.rs:169-197 | when a PONG is refused on an established connection, wherever in a frame the buffer starts, the requests up to its PING are applied, and the next drain decodes the whole buffer from a frame boundary: it fails if and only if that has a decode error, and else applies the requests it finds |
| RefusedWrites.OperationsTwice | src/io/sync.rs:169-197 | if the buffer started at a frame boundary, the requests up to the refused PONG are applied a second time by the next drain that succeeds, and then the rest |
| RefusedWrites.DoubledSubscription | src/io/sync.rs:169-197 | SUBSCRIBE and PING in one buffer with the PONG refused once: the next poll succeeds with the prefix twice in the table, and one CANCEL leaves it there |
| RefusedWrites.PhantomSubscription | src/io/sync.rs:169-197 | an ignored message ending in the bytes of a SUBSCRIBE, read in two parts, the second with a PING behind it whose PONG is refused: the peer asked for nothing, but the next poll succeeds with that prefix in the table |
| RefusedWrites.DisguiseExists | src/io/sync.rs:169-197 | there is such a message for every prefix that fits the decoder |
| RefusedAnswers.RefusedWhenDue | src/io/sync.rs:153-157 | for any cut of an accepted NULL greeting, the poll that completes it fails if the transport refuses READY, with READY counted as sent and all of the last read still buffered |
| RefusedAnswers.RefusedReadyMeaning | src/io/sync.rs:108-198 | after a refused READY, NULL or PLAIN and for any cut, if writes are taken from then on: the frames decoded from the buffer and the reads to come decide the connection, what is written (READY is not sent again) and the error; it is established if and only if those bytes start with a READY from the peer |
| RefusedAnswers.RefusedReadyIsFatal | src/io/sync.rs:108-157 | if the whole greeting was in the buffer, the next poll takes it for a frame and fails |
| RefusedAnswers.EstablishedWithoutReady | src/io/sync.rs:108-157 | a new driver is sent an accepted greeting that ends in the bytes of a READY, cut right before them, and its READY is refused: the next poll reports an established connection, though ours was sent in part at most |
| RefusedAnswers.PeerReadyIsTaken | src/null.rs:138-163 | the READY of a SUB, or for RADIO of a DISH, is taken, and short enough to be the end of a greeting |
| RefusedAnswers.RefusedWelcomeIsStuck | src/io/sync.rs:108-166 | if WELCOME is refused, for any cut, no later polls and publishes, whatever the transport does, move the driver at all, and every poll gives `WrongState` |
| RefusedAnswers.WelcomeRefusedWhenDue | src/io/sync.rs:158-166 | that happens when a call of `feed` accepts HELLO and the transport refuses WELCOME |
| Polls.PollAllIsPump | src/io/sync.rs:108-198 | polling to the end (which is reached: each poll leaves less to do) is one pass of the byte machine over the stream |
| Polls.ChunkIndependence | src/io/sync.rs:108-198 | the same bytes, cut in any two ways and with any failing reads between them, give the same first error, transcript and table; and the same connection, stored greeting included, unless the early check refuses the greeting with bytes behind the 11th |
| Polls.CutShowsExactly | src/connection.rs:242-247 | two cuts of the same bytes that end in different connections exist if and only if fewer than 11 greeting bytes are stored, the first 11 fail the early check, and more than 11 arrive |
| Polls.CutShowsWitness | src/connection.rs:242-247 | 12 zero bytes to a new driver end differently with 11 or with 12 of them in the first read |
| Polls.PollAllCounts | src/io/sync.rs:108-198 | there is at most one poll for each read, and one more |
| Transcripts.OutputGrammar | src/io/sync.rs:108-217 | over any polls, publishes, failing reads and refusals from a new driver, what is written is our greeting alone before our answers are due; from Ready or PlainReady on, READY (after WELCOME for PLAIN) once behind it; then exactly the items of the run: PONGs and messages if established, only ERRORs if failed, none otherwise |
| Transcripts.EstablishedItems | src/io/sync.rs:169-180 | the items of the bytes an established connection is fed are one PONG for each PING among their frames, in order |
| Transcripts.EveryDriver | src/io/sync.rs:108-217 | whatever the transport does, writes refused part of the way too, and whatever is polled and published, a driver stays where the invariant holds, non-empty input is refused or partly consumed, and the async and blocking polls coincide |
| Transcripts.RunKeepsSteady | src/io/sync.rs:108-217 | any run of polls and publishes over any transport keeps the driver's invariant |
| Transcripts.OutputIsFrames | src/io/sync.rs:108-217 | everything after our greeting is whole frames that a peer's decoder takes to the end |
| Transcripts.PublishAnswers | src/io/sync.rs:206-217 | on any transport: `WrongState` unless established, 0 without a match, the error of the first of four writes that is refused with nothing written behind it, and else the size of the message, all of it written |
| Transcripts.SendAllExactly | src/io/sync.rs:206-217 | writes in a row stop at the first that is refused |
| Transcripts.NewAnswers | src/io/sync.rs:43-92 | a new driver is given if and only if the transport takes our greeting, and otherwise the transport's error |
| Refusals.DriverFailureIsPermanent | src/io/sync.rs:181-189 | once a poll was refused for what the peer sent, no later polls and publishes, on any transport, advance the handshake, change the table or queue a PONG, though the refused bytes are fed again each time |
| Established.EstablishedMeaning | src/connection.rs:309-359 | on an established connection any bytes, decode errors included, come to the frames in them applied to the table in order, and one PONG for each PING |
| Established.AddExactly | src/connection.rs:315-355 | a frame asks for an entry if and only if, for PUB, it is the command SUBSCRIBE with that entry or the message 1 followed by it, or, for RADIO, the command JOIN with it |
| Established.DropExactly | src/connection.rs:315-355 | a frame gives up an entry if and only if, for PUB, it is the command CANCEL with that entry or the message 0 followed by it, or, for RADIO, the command LEAVE with it |
| Established.PingExactly | src/connection.rs:333-340 | a PONG with some context is due if and only if the peer's minor version is at least 1 and the frame is the command PING whose payload, after a TTL of two bytes, is that context or starts with those 16 bytes of it; a payload of less than two bytes has an empty one |
| Established.PingIsEchoed | src/connection.rs:333-340 | from minor version 1 on, a PING of any TTL is answered with the first 16 bytes of its context; before, it is ignored |
| Established.TableIsBag | src/sub_table.rs:54-69 | over any operations a SUB peer's table is a bounded bag: add one, or remove at most one, and a refused subscribe changes nothing |
| Established.TableIsSet | src/group_table.rs:53-74 | over any operations a DISH peer's table is a bounded set |
| Established.BalanceIsCount | src/sub_table.rs:54-69 | within the capacities, the count of a prefix is its subscribes minus cancels, saturating at zero |
| Established.MatchesByMembership | src/group_table.rs:53-80 | within the capacities, the table holds exactly the groups joined and not left since, each once |
| AnyPeer.EveryPeer | src/connection.rs:221-359 | any bytes sent to a new driver, NULL or PLAIN: short of an accepted greeting, how much of it is stored and what it is refused for; behind one, the frames decoded from the bytes give the connection, what is written and the first error |
| AnyPeer.HandshakeExactness | src/connection.rs:234-307 | any bytes establish the connection if and only if they start with an accepted greeting, for PLAIN an accepted HELLO, and an accepted READY, each frame with a size field of either width; it fails if and only if a HELLO or READY is refused; a greeting fault is not answered, a HELLO fault is with ERROR, a READY fault with ERROR behind our answers |
| AnyPeer.RefusalsExactly | src/connection.rs:281-307 | a HELLO is refused with `AuthFailed` if and only if it carries credentials that the authenticator does not accept, and otherwise for its own error; a READY of over 255 bytes is malformed, and any other is refused for its own error |
| AnyPeer.EstablishedExactly | src/io/sync.rs:108-198 | a whole run of polls, for any cut and with failing reads in between, ends established if and only if the bytes start so |
| AnyPeer.EverySession | src/io/sync.rs:108-198 | and what that run writes, ends with and leaves is that of the bytes, whatever they are |
| AnyPeer.PeerErrorIsAnswered | src/null.rs:181-183 | a peer that sends ERROR where its READY is due is seen as `PeerError`, and gets ERROR behind our answers, whatever else it sends |
| EndToEnd.EarlyRefusal | src/connection.rs:242-247 | a wrong signature or major version is refused at the 11th byte |
| EndToEnd.BoundedHandshake | src/io/sync.rs:108-198 | an acceptable handshake delivered in k non-empty reads is reported established by the last of at most k + 1 polls, with exactly our part of it written |
| EndToEnd.SessionMeaning | src/io/sync.rs:108-198 | a handshake followed by any bytes, cut anywhere, ends with exactly the frames in those bytes applied, their PONGs written, and the first decode error, if any |
| EndToEnd.PongForEachPing | src/io/sync.rs:169-180 | after a handshake and any bytes, cut anywhere, the PONG for the i-th frame, a PING, stands in what was written right between the PONGs for the PINGs before it and those for the PINGs after it |
| EndToEnd.PublishFiltering | src/connection.rs:309-386 | after such a session of whole frames, a PUB publishes a topic if and only if some prefix of it is in the bag its peer's requests filled; within the capacities, if and only if some prefix was subscribed more often than cancelled |
| EndToEnd.GroupFiltering | src/radio_connection.rs:310-373 | a RADIO publishes to a group if and only if it is in the set its peer's requests filled; within the capacities, if and only if it was joined and not left since |
| AnyPeer.PublishAnyTime | src/connection.rs:309-386 | after any number of polls, any bytes and any cut, with a frame half read or an error met: a PUB publishes if and only if the bytes used so far start with an acceptable handshake, and a topic if and only if some prefix of it is in the bag that the whole frames behind it filled; within the capacities, by the balance |
| AnyPeer.PublishToGroupAnyTime | src/radio_connection.rs:310-373 | the same for a RADIO, with the set of groups |
| Drivers.Driver.New | src/io/sync.rs:43-92 | a driver exists if and only if our greeting could be written, and then it has been |
| Drivers.Driver.FeedBuffer | src/io/sync.rs:142-191 | the loop with its break at a handshake turn computes the specified drain |
| Drivers.Driver.DrainBuffer | src/io/sync.rs:142-198 | with `copy_within`: the buffer then holds exactly what was not consumed, or, after an error, what it held |
| Drivers.Driver.Poll | src/io/sync.rs:108-140 | `poll` of the blocking drivers (and src/io/sync.rs:490-526) in place |
| Drivers.Driver.PollAsync | src/io/async.rs:632-665 | `poll` of the async RADIO driver in place |
| Drivers.Driver.Publish | src/io/sync.rs:206-217 | four writes in a row, up to the first that is refused |

## Left out

- Transcripts.OutputGrammar: for a transport that accepts its writes. After a refused write only part of a frame may have gone out, and the code keeps no record of it; `Transcripts.EveryDriver`, `RefusedWrites.ConservationExactly` and the Handshake theorems hold with refused writes too.
- Polls.ChunkIndependence: for accepted writes; where the stored greeting may differ is exact, by `Polls.CutShowsExactly`.
- Polls.BytesAreConserved: up to the first refusal; for a drain that meets one, `RefusedWrites.ConservationExactly` has the exact condition.
- EndToEnd.BoundedHandshake: a read is at most 512 bytes, the size of the receive buffer.
- Two classes for PUB and RADIO: one class holds a `SubTable` or a `GroupTable` by its role; the source's separate types, and that they cannot be mixed, are not modelled.
- The decoded frame borrows the decoder's buffer in the source; here it is a copy, so that borrow is not modelled.
- `heapless` vectors are bounded sequences; their memory is not modelled.
- `parse_ready` and `parse_ready_radio` on raw wire bytes: no other code calls them.
- The async PUB driver and the async `drain_buffer`, which repeat the blocking text; scheduling and cancellation of futures.
- Real transports, error kinds beyond a number, and `src/io/smoltcp.rs`.
- The timing of the authenticator; it is a function of its arguments.
