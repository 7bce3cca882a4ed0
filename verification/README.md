# Ghost Proxy: the framed tunnel, verified

A model in Dafny 4.11 of Ghost Proxy's tunnel, from a SOCKS5 request at the client to the bytes that
reach the destination, with proofs of what the two endpoints promise each other.
`dafny verify dfyconfig.toml` checks all of it.

The layers, bottom up:

- `Bytes`, `Frames`, `Envelope`, `Chunking`: big-endian fields, the frame format, the plaintext
  envelope with its padding, and the cutting of data into frame payloads.
- `Sealing`: nonces, associated data and the AEAD. One key is one object with a log of everything
  sealed under it; opening succeeds exactly on logged entries. Callers of `Seal` learn only the
  ciphertext's length and that it was logged, so nothing depends on the cipher.
- `Channels`: what the client's `DataChannel` and the gateway's `tunnelChannel` do with one frame, as
  two separate functions. They differ in one step: the client counts a frame before opening it, the
  gateway after.
- `Streams`, `FrameIO`, `Endpoints`, `Adapters`, `Dialing`, `Gateway`, `Socks`: the code as it runs.
  Connections fragment, stall, fault and write short in every way their contracts allow; the methods
  are proved against the functions above. Ghost counters on the connections record every read that
  failed and every write that failed or fell short, so that an error is reported exactly when there
  was one.
- `Receivers`: an honest sender and a receiver that is handed arbitrary bytes, over all runs.
- `Pipes`, `Fifo`: one direction of an open tunnel end to end, with concurrent writers whose writes may
  fail after any part of a frame, over all interleavings; `Pipes` is the machine and its invariant,
  `Fifo` what follows from it.
- `Schedules`: the gateway's two goroutines on one channel, and the teardown that the first of them to
  return brings on, over all schedules.
- `Handshake`: the client-first handshake as a machine of two parties, in which the client seals what
  it sends and any of its writes may fail, over all joint runs.
- `Correspondence`: the steps of these machines do what the contracts of the methods they stand for say.
- `Targets`: host and port text, and which targets get through.

Main results:

1. In each direction, for every interleaving of callers, every fragmentation, every size of reads and
   every way writes can fail, what comes out is a prefix of the payloads sealed, and those are, call by
   call in lock order, a prefix of each call's chunks (`Fifo.DeliveredIsPrefixOfSealed`,
   `Fifo.WritersDoNotInterleave`). For callers that stop at an error the tunnel is a first-in first-out
   byte pipe (`Fifo.PipeIsFifo`); from every reachable state the receiver alone can get all that was
   written before the first short write (`Fifo.ReceiverCanDrain`), and while nothing has failed every
   further call can be written and received (`Fifo.EveryCallCanGetThrough`).
2. Against an arbitrary network the gateway accepts exactly the first `received` messages sealed, even
   across failed and retried reads; the client accepts an ascending subsequence, gap-free if and only
   if nothing failed to open (`Receivers.GatewayAcceptsExactlyThePrefix`,
   `Receivers.ClientAcceptsAnAscendingSubsequence`, `Receivers.OneForgedFrame`).
3. Throwing away the buffered reader after a good proof loses nothing, and that is so if and only if
   the client waits for the ack (`Handshake.NothingIsDropped`,
   `Handshake.LosslessIffClientWaits`). The first read of the tunnel then gives the client's own target,
   authenticated under number 0 (`Handshake.TunnelStartsWithOpen`). A client with a wrong proof is never
   answered (`Handshake.OnlyTheRightProofIsAnswered`); one that waits can always get through
   (`Handshake.WaitingClientGetsThrough`).
4. A connection is served if and only if its first frame is a good proof and the ack went out; a
   refused one has been sent nothing and reaches the decoy from its first byte
   (`Gateway.AuthenticateReplay`, `Gateway.Handle`, `Streams.RelayCopy`).
5. The two channel implementations cannot be told apart in any run in which every frame opens
   (`Channels.ImplementationsAreObservationallyEqual`).
6. The gateway's two loops share one channel without a lock, and their turns commute in every state
   (`Schedules.TurnsCommute`); until the teardown the schedule does not matter
   (`Schedules.SchedulingIsIrrelevantUntilTeardown`). Whatever the turns, the read loop delivers a prefix
   of what it accepts (`Schedules.UpTurnsDeliver`) and the write loop frames the destination's bytes, each
   once and in order (`Schedules.DownTurnsFrame`), so that the client reads a prefix of them
   (`Schedules.ClientReadsDestination`).

Three properties that one could expect turned out false. Each has a counterexample and its exact
condition:

- First-in first-out for callers that go on after an error. `DataConn.Write` releases its lock when a
  write fails, and the next call seals under the next number. If the failed write had taken its frame
  whole, that call's remaining chunks are missing in the middle of the stream
  (`Fifo.GoingOnBreaksFifo`); if not, a number is missing on the wire (`Fifo.GoingOnLeavesAGap`). The
  order is kept exactly up to the last message sealed before a chunk was passed over, and so for good
  exactly when no call seals anything after one that left a chunk behind (`Fifo.FifoExactly`); and the numbers are consecutive exactly when nothing was written whole after a
  short write (`Fifo.WireNumbersAreConsecutive`).
- Independence of the schedule. The first loop to return closes both connections under the other one,
  so a frame that is waiting when the destination ends is delivered or lost
  (`Schedules.TeardownCanLoseData`). Each side always gets a prefix of what its loop alone would have
  given it (`Schedules.TeardownCutsShort`), and two schedules give a side the same exactly when every
  turn of its loop that only one of them let through is idle (`Schedules.SchedulesAgreeExactly`).
- Targets that arrive as they were asked for. A SOCKS domain that is itself in brackets and holds no
  colon passes both validators and is dialled without them: `[a]` port 80 as `a` port 80
  (`Socks.BracketsAreLost`). `Targets.TargetsThatArrive` says exactly which targets pass and as what;
  `Targets.UnchangedIffBracketless` that what a validator returns is the host that was joined exactly
  when that host had no bracket.

The theorems about sequence numbers assume that fewer than 2^64 messages are sealed under a key, the
lifetime `NonceCounter` documents for itself, and those about the client's receive counter that fewer
than 2^64 numbers are spent there; reads that fail without spending one do not count.
`Receivers.FullSpanReplays` is a run that shows the bound cannot be raised.

## Model

| member | source | states |
|---|---|---|
| `Fifo.PipeIsFifo` | pkg/client/client.go:151-193 | in every run of callers, lock, sealing, writing, failing, partial arrival, reading and partial hand-on: if nobody takes the lock after a failure, what came out is a prefix of the calls' data in lock order; if nothing failed and nothing is pending it is all of it; holds for both directions |
| `Fifo.DeliveredIsPrefixOfSealed` | pkg/client/client.go:170-193 | in every run, whatever fails and whoever goes on, what came out is a prefix of the payloads sealed, in sealing order |
| `Fifo.FifoExactly` | pkg/client/client.go:183-185 | in every run the messages received are the calls' first chunks in lock order if and only if the counter has not passed the messages sealed before a failed call left a chunk behind, and then the bytes are a prefix of the calls' data; the counter cannot pass them exactly when no call sealed a chunk after one that left one behind |
| `Fifo.OriginOfPayload` | pkg/client/client.go:178-190 | which chunk of which call the i-th sealed payload is |
| `Fifo.GoingOnBreaksFifo` | pkg/client/client.go:183-185 | a run in which a call fails after its first frame was taken whole and another goes through: what comes out is no prefix of the two |
| `Fifo.WritersDoNotInterleave` | pkg/client/client.go:170-193 | in every interleaving of concurrent callers, sealed payloads are, call by call in lock order, a prefix of each call's chunks, and all of them unless the call failed or is still inside the lock |
| `Fifo.OrderIsTheCalls` | pkg/client/client.go:170-172 | in every run, for both receivers, the k-th entry of the lock order is the data of a call that was made and waited until its own lock, the k+1-st to be taken |
| `Fifo.EveryCallCanGetThrough` | pkg/client/client.go:170-193 | from every reachable state in which no write has failed and nobody is inside the lock, any further call can be made, written and received, and then all calls' data has come out |
| `Fifo.WireNumbersAreConsecutive` | pkg/transport/data.go:124-142 | in every run the frames written whole are numbered consecutively if and only if none was written after a short write; until something is, the wire parses to the unread frames under consecutive numbers, and to all that were written if no write was short |
| `Fifo.GoingOnLeavesAGap` | pkg/client/client.go:183-185 | a run in which a failed write that took less than its frame leaves number 0 out and the next call is written under number 1 |
| `Fifo.ReceiverCanDrain` | pkg/gateway/tunnel.go:228-238 | from every reachable state receiver steps alone deliver everything written before the first short write; everything sealed if no write was short, and everything written if no call failed |
| `Pipes.ArrivedFrameIsAccepted` | pkg/gateway/tunnel.go:173-195 | until something is written after a short write, a frame that has arrived in full is the next one sealed, and the receiver accepts it with its payload |
| `Pipes.ClearIsAccepted` | pkg/gateway/tunnel.go:173-195 | a frame written before the first short write is read and accepted, whatever was written after it |
| `Pipes.StepKeepsInv` | pkg/transport/data.go:102-147 | every step of either side, including a write that fails after any part of its frame, keeps the invariant that ties log, wire, counters, calls and delivered bytes together |
| `Receivers.GatewayAcceptsExactlyThePrefix` | pkg/gateway/tunnel.go:173-195 | for arbitrary bytes at every read, including failed and retried reads, accepted messages are exactly the first `received` sealed, in order, with their types |
| `Receivers.ClientAcceptsAnAscendingSubsequence` | pkg/transport/data.go:87-196 | accepted numbers strictly increase, each payload is the one sealed there, numbers below the counter are those accepted plus those spent on failed opens; gap-free if and only if none was; for any number of reads that spend none |
| `Receivers.OneForgedFrame` | pkg/transport/data.go:87-97 | after one frame that does not open, the gateway still takes the genuine message and the client never will |
| `Receivers.FullSpanReplays` | pkg/frame/nonce.go:38-48 | for any 2^64 messages, a run that takes each of them and then the first one again: what was accepted is longer than what was sent, so the documented limit is the exact one |
| `Receivers.ReadStepCases` | pkg/transport/data.go:152-196 | against any bytes a read does nothing, takes the next message, or (client only) spends its number |
| `Channels.AcceptsOnlyTheNextMessage` | pkg/gateway/tunnel.go:173-195 | at counter k the one frame accepted is that of message k, asked for by its type; every other leaves the counter, except the client's failed open |
| `Channels.WhyRefused` | pkg/transport/data.go:152-196 | for arbitrary logs, which error a frame is refused with, in the order type, number, key, envelope, and what each outcome does to either counter |
| `Channels.ReceiversAgree` | pkg/transport/data.go:77-97 | on every frame, state and key both implementations give the same result; their counters part exactly when opening fails |
| `Channels.ImplementationsAreObservationallyEqual` | pkg/gateway/tunnel.go:166-195 | in every run without a failed open both give the same results and end with the same counter |
| `Channels.AgreementUpToFirstFailure` | pkg/transport/data.go:87-196 | in every run they agree up to and including the first failed open |
| `Channels.AcceptedAreNextMessages` | pkg/gateway/tunnel.go:228-238 | successive reads of any byte stream from counter k return the payloads of messages k, k+1, ... and nothing else |
| `Channels.AcceptedOfOwnFrames` | pkg/gateway/tunnel.go:228-238 | of a stream that starts with the frames of those messages they return all, whatever follows |
| `Schedules.SchedulingIsIrrelevantUntilTeardown` | pkg/gateway/tunnel.go:65-68 | two schedules of the same two forwarding loops that have not come to the teardown end in the same channel, connection and destination state |
| `Schedules.TeardownCutsShort` | pkg/gateway/tunnel.go:64-68 | in every schedule each side gets a prefix of what its loop alone would have given it, and all of it if and only if every turn after the cut is idle |
| `Schedules.SchedulesAgreeExactly` | pkg/gateway/tunnel.go:64-68 | two schedules of the same loops give a side the same if and only if every turn of its loop that came before the cut in only one of them is idle |
| `Schedules.TeardownCanLoseData` | pkg/gateway/tunnel.go:64-68 | two schedules of the same loops: with a data frame waiting and the destination at its end, one delivers the payload and the other loses it |
| `Schedules.TurnsCommute` | pkg/gateway/tunnel.go:139-145 | a turn of the read loop and one of the write loop commute in every state, before and after each closing |
| `Schedules.UpTurnsDeliver` | pkg/gateway/tunnel.go:228-238 | after n turns the read loop alone has delivered a prefix of the first n payloads it accepts, and all of them if the destination did not fail |
| `Schedules.DownTurnsFrame` | pkg/gateway/tunnel.go:239-263 | for every series of turns of the write loop there are messages, sealed under the next numbers, whose payloads followed by what is in hand and what is unread are the destination's bytes; the tunnel has their frames, only the last cut short, and none if no write was |
| `Schedules.ClientReadsDestination` | pkg/gateway/tunnel.go:239-263 | what the client reads of those frames is a prefix of what the destination sent, all payloads but the last for certain and all if no write was cut |
| `Schedules.EndedLoopFramedAll` | pkg/gateway/tunnel.go:239-263 | a write loop in which nothing failed returns only when every byte of the destination has been framed |
| `Schedules.WriteLoopFinishes` | pkg/gateway/tunnel.go:239-263 | the write loop can always be run to its end, with everything framed |
| `Schedules.PullTurnReads` | pkg/gateway/tunnel.go:241-243 | a read takes its bytes off the destination into the hand, with the error that came with them; without bytes the error ends the loop |
| `Schedules.PushesUntilDone` | pkg/gateway/tunnel.go:244-262 | the loop goes on until what is in hand is written, and returns then exactly if the read had come with an error |
| `Schedules.NothingAfterTeardown` | pkg/gateway/tunnel.go:64-68 | once a loop has returned both connections can be closed, and then neither side gets anything in any continuation |
| `Schedules.ClosingFollowsReturn` | pkg/gateway/tunnel.go:64-68 | in every run the destination is closed only after a loop has returned, and the tunnel only after the destination |
| `Schedules.LoopsReturn` | pkg/gateway/tunnel.go:228-263 | after the teardown both loops return as soon as they act |
| `Schedules.PushTurnSeals` | pkg/gateway/tunnel.go:196-218 | a write turn keeps the sender honest, takes the next chunk in hand and puts its frame, or the part a failing write took, on the wire |
| `Handshake.NothingIsDropped` | pkg/gateway/handshake.go:60-76 | in every joint run of client and gateway, the buffered reader held nothing when it was discarded |
| `Handshake.OnlyTheRightProofIsAnswered` | pkg/gateway/handshake.go:69-75 | in every joint run a client whose proof is not the expected one is sent nothing, never connected and never served |
| `Handshake.WaitingClientGetsThrough` | pkg/client/client.go:92-138 | for every right proof and valid target, a run in which the client that waits is connected, the gateway serves, and the tunnel's first read gives the target |
| `Handshake.WrongProofFallsBack` | pkg/gateway/handshake.go:69-71 | for every wrong proof, a run in which the gateway falls back with all the client wrote to be replayed |
| `Handshake.TimeOutEndsReading` | pkg/gateway/handshake.go:61-64 | a gateway that has not decided when its time is up falls back, after every run |
| `Handshake.HandshakeBytes` | pkg/frame/frame.go:64-97 | the proof and the ack byte by byte |
| `Handshake.TunnelStartsWithOpen` | pkg/gateway/tunnel.go:56-59 | in every joint run, once the gateway serves, the tunnel's first read gives the client's own target and counter 1 or finds no whole frame yet; it gives the target as soon as a connected client has written its ConnOpen; and all later messages are data |
| `Handshake.LosslessIffClientWaits` | pkg/client/client.go:92-138 | for every proof and valid target, discarding the reader is lossless in all runs if and only if the client waits for the ack or its proof is wrong |
| `Handshake.EagerClientLosesItsOpen` | pkg/client/client.go:120-138 | a run in which a client that does not wait loses its whole ConnOpen frame: the gateway serves and nothing is left to arrive |
| `Handshake.ReplayIsTheWholeStream` | pkg/gateway/handshake.go:65-75 | while not accepted, recorded bytes, then the buffered reader, are the client's stream from its first byte, in every run |
| `Handshake.ProofIsWhole` | pkg/gateway/handshake.go:65-71 | a proof read from this client's stream is the whole proof frame, and what is left starts with its first frame as far as it goes |
| `Gateway.AuthenticateReplay` | pkg/gateway/handshake.go:60-76 | accepts if and only if the frame in front is an AuthResponse with the right proof and the ack could be written; writes nothing before that; a refusal returns a replay equal to the original stream whatever was read or buffered; every byte is accounted for |
| `Gateway.PrepareGatewayTLS` | cmd/server/main.go:163-191 | succeeds if and only if the first byte was seen, is that of a handshake record, and the TLS layer was satisfied; only the end, a fault or a hundred empty reads hide that byte; captured and remaining bytes are the original stream |
| `Gateway.Handle` | pkg/gateway/server.go:48-98 | exactly when a connection is served, closed, or falls back with or without a replay; a served client has got exactly the ack, any other without a good proof nothing; the decoy gets a prefix of the original stream, what was counted for certain, and all of it when the relay succeeds |
| `Dialing.Authenticate` | pkg/client/client.go:120-138 | nothing but the proof frame is written before the ack; succeeds if and only if the proof could be written and the frame that came is an AuthSuccess; a fault is reported only if there was one |
| `Dialing.Dial` | pkg/client/client.go:92-118 | succeeds if and only if both frames could be written, the answer was an ack and the target is valid; then exactly the proof and the ConnOpen were written, the gateway's first read gives the target whatever follows, and the connection has the directions, keys, salt, padding, reader and writer asked for; failures write no more than their step allows |
| `Dialing.WriteConnectFrame` | pkg/transport/open.go:19-68 | an invalid target takes no nonce and writes nothing; a valid one always fits, and goes out if and only if the write is sound |
| `Dialing.ReadConnect` | pkg/gateway/tunnel.go:219-226 | one ConnOpen message is read, and accepted if and only if its payload is a valid target; every other outcome has its own error |
| `Dialing.TargetReachesGateway` | pkg/gateway/tunnel.go:219-226 | the target in the client's first frame is the target the gateway reads, whatever follows on the wire, and is valid at both ends or at neither |
| `Adapters.DataConn.Write` | pkg/client/client.go:170-193 | succeeds if and only if every write was sound; all of p is framed in chunks, each with its own filler, or total is the length of the chunks whose frames were written and exactly one more was sealed and handed to the failing writer |
| `Adapters.DataConn.Read` | pkg/client/client.go:151-168 | leftover plus newly read payloads equal what is returned plus the new leftover; as much as fits is returned; frames are read only when nothing is left over; an error is that of the first read that fails, with the counter it leaves, and a fault is reported only if there was one; one whole frame was consumed per payload, and after an error in addition the frame, or the start of one, that it hit |
| `Adapters.WriteChunks` | pkg/gateway/tunnel.go:244-255 | the same accounting for the gateway's inner loop; it fails if and only if a write does |
| `Adapters.ForwardDestinationToTunnel` | pkg/gateway/tunnel.go:239-263 | framed payloads are the chunks of the reads, in order and each with its own filler; a nil result means every byte up to the end was framed; it fails exactly when the destination's reads or the tunnel's writes do; after a failed send all earlier reads and a prefix of the last one were framed, and exactly one more chunk was sealed and handed to the failing writer |
| `Adapters.ForwardTunnelToDestination` | pkg/gateway/tunnel.go:228-238 | the destination gets the accepted payloads in order, the last cut short only if the destination failed; the loop stops with the error and the counter of the first read that fails, or with the destination's own failure |
| `Adapters.CompleteFramesDecode` | pkg/client/client.go:176-192 | the frames a Write reported as written decode, in order, to exactly its chunks, whatever follows them on the wire |
| `Adapters.ReceivedIsPrefixOfSealed` | pkg/gateway/tunnel.go:228-238 | whatever bytes arrive, what is received is a prefix of what was sealed |
| `Adapters.WireLengthLaw` | pkg/client/client.go:174-190 | a padded Write of n > 0 bytes emits floor((n-1)/1442)*1475 + 15 + B bytes, B the least block for the last chunk |
| `Adapters.DataFrameBytes` | pkg/frame/frame.go:64-97 | a data frame byte by byte |
| `Adapters.WireLengthTells` | pkg/padding/padding.go:34-91 | two padded writes have the same wire length if and only if they have the same chunk count and the same last block |
| `Chunking.ConcatOfChunks` | pkg/client/client.go:178-190 | chunking loses and reorders nothing |
| `Chunking.ChunkLengths` | pkg/client/client.go:174-190 | the number of chunks, and that all but the last are full |
| `Endpoints.DataChannel.Send` | pkg/transport/data.go:102-147 | envelope and padding errors change nothing and take no nonce; otherwise one message is sealed, its plaintext, nonce and associated data given byte by byte, and its frame handed over; success if and only if the frame is writable and the write sound; with a reliable writer that is a payload of at most 1442 (padded) or 65517 bytes |
| `Endpoints.DataChannel.Receive` | pkg/transport/data.go:152-196 | result, counter and remaining stream are those of the client's rule on the whole stream, under every fragmentation; a fault is reported only if there was one |
| `Endpoints.TunnelChannel.Write` | pkg/gateway/tunnel.go:196-218 | the same send contract, changing no receive state |
| `Endpoints.TunnelChannel.Read` | pkg/gateway/tunnel.go:173-195 | result, counter and remaining stream are those of the gateway's rule, under every fragmentation, changing no send state; a fault is reported only if there was one |
| `Endpoints.SealedButNotWritable` | pkg/frame/frame.go:73-78 | a nonce is spent without a frame exactly for unpadded payloads of 65518 to 65535 bytes |
| `Sealing.NonceCounter.Next` | pkg/frame/nonce.go:40-48 | the n-th call returns the four bytes of the salt and the eight of n, most significant first, with wrap-around |
| `Sealing.NoncesRepeatExactlyOnWrap` | pkg/frame/nonce.go:38-48 | two nonces are equal if and only if their salts are and their counts are equal modulo 2^64 |
| `Sealing.AadFormsAgree` | pkg/transport/data.go:77-86 | copying the nonce's counter bytes and re-encoding the decoded number give the same associated data |
| `Sealing.AadIsInjective` | pkg/gateway/tunnel.go:166-172 | associated data pin type, direction and number |
| `Sealing.AadLayout` | pkg/gateway/tunnel.go:166-172 | the ten bytes: type, direction, number |
| `Sealing.Aead.Seal` | pkg/crypto/Aead.go:52-57 | 16 bytes longer than the plaintext, and logged |
| `Sealing.Aead.Open` | pkg/crypto/Aead.go:63-72 | succeeds exactly on what was sealed under the key with this nonce and associated data |
| `Sealing.HonestEntryOpens` | pkg/crypto/Aead.go:63-72 | under an honest sender each entry opens to its own plaintext |
| `Sealing.HonestOpenIsEntry` | pkg/crypto/Aead.go:63-72 | what opens with sequence number k is the k-th entry |
| `Frames.ParseOfEncode` | pkg/frame/frame.go:64-132 | reading inverts writing, whatever follows |
| `Frames.FrameLayout` | pkg/frame/frame.go:64-97 | the wire format byte by byte, and exactly which frames may be written |
| `Frames.NoFrame` | pkg/frame/frame.go:101-132 | exactly when there is no frame to read, with which error, and where the stream then stands |
| `Frames.EncodeOfParse` | pkg/frame/frame.go:101-132 | what is read re-encodes to exactly the bytes consumed |
| `Frames.ParseAllOfEncodeAll` | pkg/frame/frame.go:64-132 | frames written back to back are read back as themselves |
| `Frames.ParseAllOfPartialArrival` | pkg/frame/frame.go:101-132 | of a stream still arriving, the frames readable so far are a prefix of those written |
| `Frames.FramingIsUnambiguous` | pkg/frame/frame.go:64-97 | a byte stream encodes at most one list of frames |
| `Frames.StreamIsItsFrames` | pkg/frame/frame.go:101-132 | every byte stream is its frames re-encoded, then a tail that holds no frame |
| `FrameIO.ReadFrame` | pkg/frame/frame.go:101-132 | under every fragmentation the outcome and the bytes left are those of the whole stream unless a read of the connection failed; exactly the frame is consumed, and on a fault the start of one |
| `FrameIO.WriteFrame` | pkg/frame/frame.go:64-97 | an invalid frame writes nothing; success if and only if the frame is valid and the one write took all of it without an error; a failure leaves a prefix of it |
| `Envelope.SelectBlockSize` | pkg/padding/padding.go:54-64 | the least configured block that fits, or an error if and only if none does |
| `Envelope.UnwrapOfWrap` | pkg/padding/padding.go:72-125 | receiving inverts sending for every payload, filler and padding setting |
| `Envelope.WrapLayout` | pkg/padding/padding.go:72-91 | the plaintext byte by byte: length, payload and the given filler |
| `Envelope.UnwrapExactly` | pkg/padding/padding.go:104-125 | what a receiver makes of arbitrary plaintext: the announced bytes if they are there, or which error |
| `Envelope.DecodeFollowsUnpad` | pkg/frame/payload.go:42-61 | on arbitrary plaintext DecodePayload succeeds whenever Unpad does, and the payload is the announced prefix |
| `Envelope.WrapDomain` | pkg/padding/padding.go:54-91 | exactly which payloads can be sent and how long the ciphertext will be |
| `Streams.Conn.Pull` | pkg/gateway/server.go:100-116 | whatever a read of the connection returns is captured |
| `Streams.Reader.Read` | pkg/gateway/handshake.go:65-67 | exactly what is returned is taken off the stream; a failure is reported if and only if the connection had one that was not reported before |
| `Streams.ReadFull` | pkg/frame/frame.go:101-132 | all n bytes, unless the stream ends first or a read failed before they were there |
| `Streams.Reader.Peek` | cmd/server/main.go:167-171 | peeking returns the first byte of the stream and consumes nothing; there is none only at the end, after a failure or after a hundred empty reads |
| `Streams.Replay.Read` | pkg/gateway/handshake.go:68-68 | reading a replay hands out its contents in order, losing nothing; the end is reported only when nothing is left |
| `Streams.WriteAll` | pkg/gateway/tunnel.go:264-276 | what was written is a prefix of the data, all of it on success; ends under every pattern of short writes; each error is exactly a write that returned one or took nothing (writeFallbackAll is the same loop) |
| `Streams.RelayCopy` | cmd/server/main.go:232-252 | ends on finite input; the destination gets a prefix of the source, the total counts the buffers before the last, and on a nil error both equal the source; each error is exactly a failure of the source or the destination |
| `Targets.TargetsThatArrive` | pkg/gateway/tunnel.go:118-137 | exactly which joined hosts and ports both validators accept, what they arrive as, and that they fit in 263 bytes |
| `Targets.UnchangedIffBracketless` | pkg/gateway/tunnel.go:118-137 | for every accepted target, the host the validator returns is the one that was joined if and only if that had no brackets, and otherwise is what was inside them |
| `Targets.ValidatorsAgree` | pkg/transport/open.go:132-173 | the two validators accept the same targets and split them the same way |
| `Targets.AcceptedTargets` | pkg/transport/open.go:132-173 | exactly which texts either validator accepts, up to 1024 bytes, and the host and port it makes of them |
| `Targets.RefusedTargets` | pkg/transport/open.go:132-173 | the reason for refusing one, in the order of the checks, and the one reason the gateway does not tell apart |
| `Targets.PortTextAccepted` | pkg/gateway/tunnel.go:132-135 | the port texts accepted: digits with value 1 to 65535, after at most one plus sign |
| `Targets.BlankAscii` | pkg/gateway/tunnel.go:129-131 | an ASCII host counts as empty if and only if it is all white space |
| `Targets.SpaceRunes` | pkg/gateway/tunnel.go:129-131 | white space in a host is exactly Unicode's, in UTF-8 |
| `Targets.SplitOfJoin` | pkg/transport/open.go:144-151 | a bracketless host and a port survive joining and splitting |
| `Targets.SplitExactly` | pkg/transport/open.go:144-151 | exactly which texts split into a host and a port, and into which |
| `Targets.SplitRefusesBrackets` | pkg/transport/open.go:144-151 | every other host with a bracket is refused |
| `Socks.Negotiate` | pkg/socks5/server.go:73-80 | a request comes out if and only if the stream starts with a well-formed greeting and CONNECT, and exactly those bytes are consumed; every other outcome is that of the first message refused |
| `Socks.HandleGreeting` | pkg/socks5/server.go:118-159 | exact consumption under every fragmentation; a readable greeting is answered 05 00 or 05 ff and nothing else is; a failed read or reply is reported exactly when there was one |
| `Socks.ReadRequest` | pkg/socks5/request.go:23-98 | outcome and remaining bytes are those of the whole stream, under every fragmentation; a fault is reported only if there was one |
| `Socks.GreetingAccepted` | pkg/socks5/server.go:118-159 | accepted if and only if well-formed and offering no-authentication |
| `Socks.ParseOfEncodeRequest` | pkg/socks5/request.go:23-98 | parsing inverts encoding and leaves the next byte unread |
| `Socks.RequestLayout` | pkg/socks5/request.go:23-98 | the request byte by byte |
| `Socks.GreetingRefused` | pkg/socks5/server.go:118-159 | why a greeting is refused, in the order of the checks, and what has been read of it |
| `Socks.RequestRefused` | pkg/socks5/request.go:23-98 | why a request is refused, likewise |
| `Socks.EncodeOfParseRequest` | pkg/socks5/request.go:23-98 | an accepted request is the encoding of what it parsed to |
| `Socks.RequestTargetArrives` | pkg/socks5/request.go:86-97 | IP targets with a port other than 0 always arrive as they are, domains exactly under the stated condition, and every target is at most 263 bytes |
| `Socks.BracketsAreLost` | pkg/socks5/request.go:94-97 | a request for the domain [a], port 80, is accepted at both ends and dialled as a, port 80 |
| `Correspondence.PipeSeals` | pkg/transport/data.go:102-142 | sealing in the pipe adds the entry that the channels' send contracts describe |
| `Correspondence.PipeWrites` | pkg/client/client.go:183-185 | its two ways to write are the two outcomes of a frame write; only the failed one frees the lock |
| `Correspondence.PipeReads` | pkg/gateway/tunnel.go:173-195 | its read is the receivers' rule on what has arrived |
| `Correspondence.UpTurnReads` | pkg/gateway/tunnel.go:228-238 | a turn of the read loop is one channel read and a write of its payload |
| `Correspondence.PushTurnWrites` | pkg/gateway/tunnel.go:196-218 | a push is one channel write of the next chunk |
| `Correspondence.GatewayDecides` | pkg/gateway/handshake.go:69-75 | the gateway serves exactly if what it recorded is a good proof and the ack went out, and sends nothing otherwise |
| `Correspondence.ClientReceivesAck` | pkg/client/client.go:120-138 | the client is connected exactly if the frame that came is an ack |
| `Correspondence.ClientSends` | pkg/transport/data.go:102-147 | the client's frames are those of the channel's send contract |
| `Correspondence.LinkSends` | pkg/transport/data.go:102-142 | a send of the link adds the entry of the channels' send contracts |
| `Correspondence.LinkReads` | pkg/transport/data.go:152-196 | a read of the link is the receivers' rule |

## Left out

- ChaCha20-Poly1305, HKDF, HMAC and the TLS exporter: library code, replaced by an ideal AEAD per key and by a proof that verifies exactly when it is equal.
- TLS itself: the model starts from the decrypted stream; the handshake is an arbitrary series of reads and its verdict a parameter.
- Deadlines, jitter, logging, configuration and process control: timing and set-up only; a deadline that passes is a read that faults.
- The deprecated server-first `Authenticate` and the non-directional channel mode: they promise no sequence.
- `dialPublicDestination`: resolution and address classes are library predicates.
- `sendReply`, `connectToTarget` and the SOCKS relay: thin wrappers.
- The text of IP addresses (`net.IP.String`): any function whose results are 1 to 39 bytes of hexadecimal digits, dots and colons.
- The locks of `DataConn` as objects: its methods are sequential, and the write lock is part of the state in `Pipes`.
- The client's side inside `Schedules`: its log and what it has sent are fixed there; `Receivers` and `Handshake` have sender and receiver interleave.
- The error of the random source in `Pad` (pkg/padding/padding.go:84-88): filler is a parameter, one function per frame, and always there.
- `relayCopy`'s total as an int64: totals are unbounded.
- Fallback after `SetReadDeadline` fails: the source passes a nil reader on; `Gateway.Handle` reports it as its own outcome.
- Nil receivers, readers and writers: the model has none.
