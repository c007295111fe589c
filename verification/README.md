# NexusMainframe: models and proofs

NexusMainframe is a home-automation host. Underneath its plumbing it hand-writes a Chromecast wire stack, a WebSocket
server, an MQTT to WebSocket bridge, an event bus with owning subscriptions, a module manager that owns libraries
through vector moves, a log stream with backfill, and a directory scanner. This project models those parts in Dafny and
proves what they are for.

`dafny verify dfyconfig.toml` checks everything.

## How it is built

| file | models |
|---|---|
| `Bits.dfy`, `Transport.dfy` | bytes, shifts and masks on unsigned values, `static_cast<int>`; a byte stream whose reads and writes may stop short or fail |
| `CastProto.dfy`, `CastChannel.dfy`, `CastWire.dfy` | the protobuf codec, the TLS loops and length framing, and all interleavings of threads that share one channel |
| `Sha1.dfy`, `Base64.dfy`, `KnownAnswers.dfy`, `Handshake.dfy`, `WsFrames.dfy`, `WsServer.dfy` | the WebSocket server, from the accept key to frames and the bytes each client's socket takes |
| `EventBus.dfy`, `EventTrigger.dfy` | the event bus as a state machine over its lock sections, the class that runs it, and the triggers that own subscriptions |
| `MqttClient.dfy`, `TopicFilter.dfy`, `Encoding.dfy`, `ClientMessages.dfy`, `WsService.dfy`, `ClientThreads.dfy`, `Registration.dfy`, `Bridge.dfy` | the bridge, from one MQTT packet to what every client reads |
| `ModuleManager.dfy`, `LogBroadcaster.dfy`, `ModuleScanner.dfy` | library ownership, the log stream, the directory walk |

Four devices recur.

* Code that updates state in place is a class or a method with loops. Its contract ties the result or the new state to a
  function of the old one; lemmas then prove what the source promises about that function.
* Code that several threads enter is a state machine whose steps are the lock sections. `IsRun` describes every
  interleaving, and the main lemmas hold for every run. `EventBus.EventBus` and `LogBroadcaster.LogBroadcaster` record
  their own machine run in the field `run`, so everything proved of runs holds of the classes; `CastWire.SendIsPath` does
  the same for a call of `send`. `WsService.WsService` records the indexes it has had in `past`. Between lock sections
  the methods call `Others`, which does any number of things other threads or re-entrant callbacks could do: between the
  two publications of a packet, between a packet and the dispatch, around every callback, around every frame sent, and
  between storing a log entry, copying the client table and every write of it. What stays atomic beyond the lock sections
  is one frame written to one client.
* What code and specification share is pinned from outside: bytes of the wire formats written out, known answers of the
  standards, laws that name neither side. So `WsFrames.ParseIsFrameAt` describes a frame by its bytes and `Xor` alone,
  `KnownAnswers` carries out SHA-1 on the examples of FIPS 180-4 and RFC 6455, and `Encoding.Utf8Exactly` gives UTF-8 by
  the bits of the characters.
* A socket fails or cuts a transfer short at will. `reliable` marks a socket on which nothing but the end of the stream
  stops a transfer; only completeness claims ("everything arrives") are conditional on it.

## What is false of the code

An MQTT message does not always reach its subscribers. `WsService` builds the frame with `json::dump`, which throws on text
that is not UTF-8, and swallows the exception: a client with a matching filter gets its frames if and only if topic and
payload are UTF-8 (`WsService.DeliveredIffUtf8`, and end to end `Bridge.DeliverPublish`). The payload of the single byte
0xFF, which MQTT allows, is lost (`WsService.LoneByteLost`).

A log entry is not always logged. The same throw leaves `LogBroadcaster::log`: an entry is stored and broadcast if and only
if its level, source and message are UTF-8, and otherwise nothing happens but the throw (`LogBroadcaster.DumpsIffUtf8`,
`LogBroadcaster.LogBroadcaster.Log`; at the message 0xFF, `LogBroadcaster.LoneByteThrows`). The second dump of an entry,
in the backfill, never throws (`LogBroadcaster.LogBroadcaster.OnClientConnect`).

A bad client message is not always ignored. Text that does not parse is, but the lookups throw outside the `try`, and
nothing on the client's thread catches it, if and only if the message is no object, or its `type` is no string, or its
`type` is "subscribe", "unsubscribe" or "publish" and its `topic` is no string, or its `type` is "publish" and its
`payload` is no string (`ClientMessages.ThrowsIffBad`; at {"type":5}, {"type":"subscribe","topic":5} and
{"type":"publish","payload":5}, `ClientMessages.NumberAsType`, `NumberAsTopic` and `NumberAsPayload`).

`topicMatches` is documented as MQTT filter matching, yet rejects `a/` against `a/+` and `a/#`, which section 4.7.1.3 of
MQTT 3.1.1 accepts (`TopicFilter.EmptyLastLevelMissed`). `TopicFilter.ScanIsLevelMatch` gives the exact condition for
every valid filter and every topic: the code says yes if and only if the level rule does and the topic does not end in an
empty level that the filter meets with a wildcard.

A truncated Cast message is not always rejected by the decoder: it decodes if and only if it is cut at a field end
(`CastProto.TruncatedEncoding`). The length prefix is what keeps a peer from accepting one (`CastChannel.ReadOneTruncated`).

`includes/services/WsService.hpp` documents the message key `action`; the code reads `type`, and the model follows it.

## Model

| member | source | states |
|---|---|---|
| CastProto.WriteVarint | modules/NexusChromecastModule/src/cast/CastProto.cpp:5-11 | the shifting and masking loop appends the Base 128 form of any 64-bit value and keeps what the buffer held |
| CastProto.ReadVarint | modules/NexusChromecastModule/src/cast/CastProto.cpp:42-53 | accepts exactly when a varint of at most ten bytes stands at the cursor, yields its groups summed modulo 2^64, and leaves the cursor behind it; the cursor never passes the end |
| CastProto.VarintAcceptance | modules/NexusChromecastModule/src/cast/CastProto.cpp:42-53 | a varint is found if and only if one of the first ten available bytes has no continuation bit |
| CastProto.VarintRoundTrip | modules/NexusChromecastModule/src/cast/CastProto.cpp:5-53 | every 64-bit value takes 1 to 10 bytes and is read back, whatever follows it |
| CastProto.VarintPrefixFree | modules/NexusChromecastModule/src/cast/CastProto.cpp:5-11 | no written varint is a prefix of another |
| CastProto.VarintShortest | modules/NexusChromecastModule/src/cast/CastProto.cpp:5-11 | no accepted byte string for the same value is shorter than the written one |
| CastProto.SmallVarints | modules/NexusChromecastModule/src/cast/CastProto.cpp:5-11 | below 2^14 the bytes are written out: seven bits each, the low group first, the continuation bit on the first of two |
| CastProto.WriteTag | modules/NexusChromecastModule/src/cast/CastProto.cpp:13-15 | for every `int` field number, negative ones sign-extended, the or-ed tag is the field number times eight plus the wire type in 64 bits |
| CastProto.TagRoundTrip | modules/NexusChromecastModule/src/cast/CastProto.cpp:13-15 | a tag is taken apart into exactly the field number and wire type it was made of, for every `int` field number |
| Bits.ToInt32Congruent | modules/NexusChromecastModule/src/cast/CastProto.cpp:72-73 | the cast of a field number to `int` keeps its value modulo 2^32, whatever the tag |
| CastProto.WriteStringField | modules/NexusChromecastModule/src/cast/CastProto.cpp:22-26 | appends one length-delimited record of arbitrary contents |
| CastProto.EncodeCastMessage | modules/NexusChromecastModule/src/cast/CastProto.cpp:28-38 | writes the six records of a message in field order, tied to the specification `Encode` of the laws below |
| CastProto.EncodeBytes | modules/NexusChromecastModule/src/cast/CastProto.cpp:28-38 | the encoded message byte for byte: tags 0x08 0x12 0x1A 0x22 0x28 0x32 in this order, zero for version and payload type, and each string behind its length |
| CastProto.ReadStringField | modules/NexusChromecastModule/src/cast/CastProto.cpp:55-62 | accepts exactly when length and contents fit the rest of the input, and takes exactly those |
| CastProto.DecodeCastMessage | modules/NexusChromecastModule/src/cast/CastProto.cpp:64-94 | the loop over a shared cursor is the fold over fields from the empty message, failures included |
| CastProto.FieldLocal | modules/NexusChromecastModule/src/cast/CastProto.cpp:64-94 | a field is recognised from its own bytes alone, and from no strict prefix of them |
| CastProto.DecodeEncode | modules/NexusChromecastModule/src/cast/CastProto.cpp:28-94 | decode(encode(m)) == m for every message, with arbitrary string contents and lengths, the input used up exactly |
| CastProto.EncodeOverrides | modules/NexusChromecastModule/src/cast/CastProto.cpp:28-94 | an encoded message decodes to itself on top of any message already decoded |
| CastProto.DecodeAppend | modules/NexusChromecastModule/src/cast/CastProto.cpp:64-94 | if `a` decodes, decoding `a ++ b` continues from the message of `a` over `b`, failures included |
| CastProto.UnknownFieldsIgnored | modules/NexusChromecastModule/src/cast/CastProto.cpp:64-94 | any run of unknown varint and string fields inserted at a field boundary changes neither message nor verdict |
| CastProto.LastOneWins | modules/NexusChromecastModule/src/cast/CastProto.cpp:64-94 | for every field number, a later occurrence of a field replaces the earlier value |
| CastProto.PrefixDecodes | modules/NexusChromecastModule/src/cast/CastProto.cpp:64-94 | a prefix of any decodable input decodes if and only if it is cut at a field boundary |
| CastProto.TruncatedEncoding | modules/NexusChromecastModule/src/cast/CastProto.cpp:28-94 | a strict prefix of encode(m) decodes if and only if it is cut at one of the field ends of m |
| CastChannel.TlsSocket.SendAll | modules/NexusChromecastModule/src/cast/TlsSocket.cpp:124-136 | all data goes out in order, or a strict prefix and the latch is cleared; nothing at all once it is cleared; `cuts` are the sizes of the writes |
| CastChannel.TlsSocket.RecvAll | modules/NexusChromecastModule/src/cast/TlsSocket.cpp:138-150 | exactly the next `size` bytes in stream order however the reads are cut, or the latch is cleared; bytes behind the range stay |
| CastChannel.CastChannel.Send | modules/NexusChromecastModule/src/cast/CastChannel.cpp:41-60 | one whole frame, or a strict prefix of it and a cleared latch |
| CastChannel.CastChannel.ReadMessage | modules/NexusChromecastModule/src/cast/CastChannel.cpp:62-81 | what is returned is the message at the front of the stream, the stream advanced past it; on a reliable connection it succeeds exactly when there is one |
| CastChannel.ReadOnePacket | modules/NexusChromecastModule/src/cast/CastChannel.cpp:41-81 | a peer reads back a sent frame, whatever follows, when its body is at most 1,000,000 bytes |
| CastChannel.ReadOneTruncated | modules/NexusChromecastModule/src/cast/CastChannel.cpp:41-81 | no strict prefix of a frame is accepted |
| CastChannel.ReadAllPackets | modules/NexusChromecastModule/src/cast/CastChannel.cpp:62-81 | any whole frames followed by at most one torn frame read back as exactly the whole ones, in order |
| CastChannel.CastChannel.AnswerPing | modules/NexusChromecastModule/src/cast/CastChannel.cpp:98-104 | the PONG goes back with the addresses swapped, whole or torn with the latch cleared |
| CastChannel.PongTexts | modules/NexusChromecastModule/src/cast/CastChannel.cpp:98-103 | the PONG swaps the addresses and carries the heartbeat namespace and {"type":"PONG"}, written out |
| CastChannel.CastChannel.ReceiveLoop | modules/NexusChromecastModule/src/cast/CastChannel.cpp:83-111 | heartbeat PINGs are answered and withheld, all other messages delivered, each in stream order; a failed answer ends the reading; without failures every message of the stream is seen |
| CastChannel.EachMessageOnce | modules/NexusChromecastModule/src/cast/CastChannel.cpp:93-110 | of the messages read each is answered, if it came on the heartbeat namespace and is a PING, and otherwise delivered, once, behind those of its kind before it |
| CastWire.RunKeepsInv | modules/NexusChromecastModule/src/cast/CastChannel.cpp:41-60 | the wire invariant holds in every state of every interleaving of senders, partial writes, failures and disconnects, for messages of any size |
| CastWire.WireIsWholeFrames | modules/NexusChromecastModule/src/cast/CastChannel.cpp:41-81 | in every run the wire is whole frames in lock order and at most one strict prefix; while all bodies are within 1,000,000 bytes the peer reads back exactly the whole frames |
| CastWire.NothingAfterTear | modules/NexusChromecastModule/src/cast/TlsSocket.cpp:124-136 | from a torn frame on, no byte is written for the rest of the run, and the latch stays cleared |
| CastWire.SendIsPath | modules/NexusChromecastModule/src/cast/CastChannel.cpp:41-60 | every outcome the contract of `Send` allows is a path of the machine, so its runs cover the code |
| Sha1.PadMessage | src/server/WsServer.cpp:27-32 | the padding loop ends, and gives a one bit, the fewest zeros that fill the block, and the 64-bit bit length (section 5.1.1 of FIPS 180-4) |
| Sha1.PadFillsBlocks | src/server/WsServer.cpp:29-32 | the padded length is a multiple of 64 and grows by at most 72 |
| Sha1.PadInjective | src/server/WsServer.cpp:27-32 | different messages below 2^61 bytes have different padded forms |
| Sha1.RotlRotates | src/server/WsServer.cpp:25 | the shift form of the rotation is the circular left shift for the three amounts used |
| Sha1.OrForms | src/server/WsServer.cpp:45-48 | the OR forms of Ch and Maj equal the XOR forms of section 4.1.1 |
| Sha1.RoundConstantsAreRoots | src/server/WsServer.cpp:45-48 | each round constant is the square root of 2, 3, 5 or 10 in thirty fractional bits |
| Sha1.CodeRoundIsRound | src/server/WsServer.cpp:43-50 | one turn of the round loop is one round of section 6.1.2; what the rounds compute is fixed by `KnownAnswers.AbcDigest` |
| Sha1.FillSchedule | src/server/WsServer.cpp:35-40 | the array holds the recursive message schedule of the block |
| Sha1.CompressBlock | src/server/WsServer.cpp:34-52 | one turn of the block loop is the compression of that block, which `KnownAnswers.AbcCompressed` carries out |
| Sha1.Sha1 | src/server/WsServer.cpp:21-58 | the nested loops compute the recursive block fold of FIPS 180-4, written big-endian, whose values are those of the next rows |
| KnownAnswers.TurnIsRound | src/server/WsServer.cpp:34-51 | a round on the working variables and a window of sixteen words (section 6.1.3 of FIPS 180-4) is a round over the whole schedule |
| KnownAnswers.AbcCompressed | src/server/WsServer.cpp:34-52 | the 80 rounds over the padded block of "abc" lead from the initial hash to A9993E36 4706816A BA3E2571 7850C26C 9CD0D89D |
| KnownAnswers.AbcDigest | src/server/WsServer.cpp:21-58 | the digest of "abc" is the twenty bytes FIPS 180-4 gives |
| KnownAnswers.KeyDigest | src/server/WsServer.cpp:210-212 | the digest of the sample key of section 1.3 of RFC 6455 and the magic string, over two blocks, is the twenty bytes given there |
| KnownAnswers.SampleAccept | src/server/WsServer.cpp:210-213 | the accept value of the key dGhlIHNhbXBsZSBub25jZQ== is s3pPLMBiTxaQ9kYGzzhZRbK+xOo=, as in section 1.3 of RFC 6455 |
| Base64.Base64Encode | src/server/WsServer.cpp:62-74 | the shifting loop is the encoding by groups of section 4 of RFC 4648 |
| Base64.Alphabet | src/server/WsServer.cpp:63 | the 64 symbols are those of table 1 of RFC 4648, in its order |
| Base64.DecodeEncode | src/server/WsServer.cpp:62-74 | the encoding has a left inverse on every byte string |
| Base64.EncodeShape | src/server/WsServer.cpp:62-74 | 4*ceil(n/3) symbols; '=' stands exactly at the end, as often as n mod 3 demands |
| Base64.DeriveAcceptKey | src/server/WsServer.cpp:210-213 | key and magic are hashed and encoded, by composing the two algorithms proved above |
| Base64.AcceptKeyShape | src/server/WsServer.cpp:210-213 | every accept value has 28 characters, ends in exactly one '=', and decodes to the digest |
| Handshake.ExtractKey | src/server/WsServer.cpp:201-208 | the cursor search returns the key of the request, or nothing when header or line end is missing |
| Handshake.KeyFound | src/server/WsServer.cpp:201-208 | for every request with a "Sec-WebSocket-Key:" header, the key is its value with leading spaces dropped, up to CR LF |
| Handshake.AnswerHandshake | src/server/WsServer.cpp:195-222 | the upgrade is confirmed with the accept value of the key in the request, in the response written out header by header; nothing is sent without a key |
| WsFrames.RecvAll | src/server/WsServer.cpp:78-87 | the next `n` bytes in order however the reads are cut |
| WsFrames.ReadHeader | src/server/WsServer.cpp:224-242 | opcode, length in all three forms and masking key are those on the stream, which is left at the payload |
| WsFrames.Unmask | src/server/WsServer.cpp:246 | the in-place loop XORs byte i with key byte i mod 4 and touches nothing else; `Bits.BitwiseMeaning` says what XOR does to each bit |
| WsFrames.ReadFrame | src/server/WsServer.cpp:224-255 | consumes exactly the frame that stands on the stream by its bytes (`FrameAt`) and returns its unmasked payload; opcode 9 is answered with 8A 00, opcode 8 or an error ends the connection |
| WsFrames.ParseIsFrameAt | src/server/WsServer.cpp:224-255 | on any bytes the frame found is exactly the one that stands there by sections 5.2 and 5.3 of RFC 6455: length form, and each masked byte on the wire the XOR of the payload byte and key byte i mod 4; it is found if and only if its payload is below 2^31 bytes |
| WsFrames.MaskedHello | src/server/WsServer.cpp:224-255 | 81 85 37 FA 21 3D 7F 9F 4D 51 58 reads "Hello", as in section 5.7 of RFC 6455 |
| Bits.BitwiseMeaning | src/server/WsServer.cpp:246 | bit k of an OR, AND or XOR is 1 if and only if either, both, or exactly one of the two bits is |
| WsFrames.ClientLoop | src/server/WsServer.cpp:180-185 | delivers the messages of the stream in order and nothing else; all of them when no read fails early and the server is not stopped |
| WsFrames.MaskedTwice | src/server/WsServer.cpp:246 | masking with any key is its own inverse |
| WsFrames.ParseEncoded | src/server/WsServer.cpp:224-255 | any frame, masked or not, in each length form, parses back to opcode, payload and size, whatever follows |
| WsFrames.FramesDelivered | src/server/WsServer.cpp:170-193 | over any concatenation of frames the loop delivers precisely the non-empty payloads with opcode other than 0x8 and 0x9, in order, up to the first close |
| WsFrames.BuildFrame | src/server/WsServer.cpp:258-271 | for every payload a string can hold, the pushed bytes are an unmasked text frame in the sense of section 5.2 of RFC 6455 |
| WsFrames.TextFrameBytes | src/server/WsServer.cpp:258-271 | the bytes written out: 0x81, then the length in one byte, behind 126 in two, or behind 127 in eight, then the payload |
| WsFrames.WriteFrame | src/server/WsServer.cpp:257-273 | reports success exactly when the whole frame went out; otherwise a strict prefix of it did |
| WsFrames.TextFrameMinimal | src/server/WsServer.cpp:260-270 | no frame that carries the payload is shorter than the written one |
| WsFrames.TextsReadBack | src/server/WsServer.cpp:224-273 | a reader finds on any stream of frames, pongs and others between them, exactly the payloads of its text frames, in order |
| WsFrames.TextFrameAppends | src/server/WsServer.cpp:257-273 | writing one more text adds one frame to the stream and that text, and no other, to what is read |
| WsServer.WsServer.Accept | src/server/WsServer.cpp:161-165 | the id is new, and never used twice |
| WsServer.WsServer.Send | src/server/WsServer.cpp:133-142 | the socket of that client takes the frame of the text, or a part of it and counts as broken off; no other socket takes anything |
| WsServer.WsServer.Broadcast | src/server/WsServer.cpp:144-152 | exactly one frame to every client in the table at the copy, whoever comes or goes meanwhile, except where a write comes short |
| WsServer.WsServer.WriteTo | src/server/WsServer.cpp:257-273 | a frame goes out whole or in part; while all went out whole the stream is exactly the frames written |
| WsServer.ReadBack | src/server/WsServer.cpp:133-152 | a client no write to which came short reads off its socket exactly the texts sent to it, in order, pongs in between or not |
| TopicFilter.TopicMatches | src/services/WsService.cpp:83-99 | the nested cursor loops end, and decide the relation `Scan` the lemmas below relate to the standard |
| TopicFilter.LevelsSplit | src/services/WsService.cpp:83-99 | the levels the rule speaks of hold no '/' and give the string back when joined by '/' |
| TopicFilter.LevelsMatchMeaning | src/services/WsService.cpp:83-99 | the recursive level rule that the code is compared with says: all levels fit one for one, '+' any, unless a last '#' takes the rest, its parent included |
| TopicFilter.ScanIsLevelMatch | src/services/WsService.cpp:83-99 | exact for valid filters on all topics: yes iff the level rule of section 4.7.1 of MQTT 3.1.1 says yes and the topic does not end in an empty level met by a wildcard |
| TopicFilter.MatchIsSound | src/services/WsService.cpp:83-99 | a yes is always a yes of the standard |
| TopicFilter.MatchIsExact | src/services/WsService.cpp:83-99 | on non-empty topics not ending in '/' code and standard agree |
| TopicFilter.EmptyLastLevelMissed | src/services/WsService.cpp:83-99 | "a/+" and "a/#" against "a/": accepted by the standard, rejected by the code |
| EventBus.EventBus.Subscribe | src/event/EventBus.cpp:5-21 | is one step of the machine; the id returned is new, or -1 after shutdown |
| EventBus.EventBus.Unsubscribe | src/event/EventBus.cpp:33-47 | is one step of the machine: the listener leaves, no other does, and no empty list stays |
| EventBus.SubscribedListeners | src/event/EventBus.cpp:5-21 | after a subscription each name has the listeners it had, and the name subscribed to the new one |
| EventBus.UnsubscribedListeners | src/event/EventBus.cpp:33-47 | after an unsubscription each name has the listeners it had, except that id under that name |
| EventBus.EventBus.Publish | src/event/EventBus.cpp:49-58 | is one step of the machine: queued at the end, or rejected after shutdown |
| EventBus.EventBus.Shutdown | src/event/EventBus.cpp:109-120 | is one step of the machine: queue and listeners are emptied for good |
| EventBus.EventBus.CallAll | src/event/EventBus.cpp:91-103 | every copied callback is called once, in order, whatever the callbacks and other threads do in between |
| EventBus.EventBus.DispatchFront | src/event/EventBus.cpp:71-106 | one turn of the loop finishes exactly the front event |
| EventBus.EventBus.DispatchPending | src/event/EventBus.cpp:60-107 | ends, dispatches exactly the events queued at the call, in order, and for each calls exactly the listeners registered when its processing began |
| EventBus.RunKeepsInv | src/event/EventBus.cpp:5-120 | the bus invariant holds in every reachable state, callbacks re-entering the bus included |
| EventBus.FifoConservation | src/event/EventBus.cpp:49-107 | in every reachable state accepted == dispatched ++ in hand ++ queued; after shutdown the cleared events take the place of the queue |
| EventBus.CallsAreSnapshots | src/event/EventBus.cpp:71-106 | all calls ever made are, event by event, the listeners registered when processing began, each once, in increasing id order; only the last snapshot may be partly called |
| EventBus.PublishedWaits | src/event/EventBus.cpp:49-69 | at any two moments of a run without a swap between them, the batch then is what has been finished since and what is in hand now: what is published meanwhile stays out |
| EventBus.ShutdownIsFinal | src/event/EventBus.cpp:109-120 | from a shutdown on, nothing in the rest of the run undoes it, accepts an event, or changes what may still be called |
| EventBus.ShutdownSilences | src/event/EventBus.cpp:60-120 | after shutdown the listeners stay empty and the calls still made are a prefix of the rest of one snapshot copied before |
| EventBus.DispatchedCalls | src/event/EventBus.cpp:60-107 | between two idle moments, the calls made are the snapshots of exactly the events finished in between |
| EventTrigger.EventTrigger.constructor | src/trigger/EventTrigger.cpp:7-13 | the new trigger owns one new listener with its task, and the correspondence of triggers and listeners is kept |
| EventTrigger.EventTrigger.Move | src/trigger/EventTrigger.cpp:20-27 | ownership passes, the source is left without a subscription, the bus is untouched |
| EventTrigger.EventTrigger.Destroy | src/trigger/EventTrigger.cpp:15-18 | removes the own listener, and none when the trigger was moved from |
| EventTrigger.EventTrigger.MoveAssign | src/trigger/EventTrigger.cpp:29-42 | the old subscription goes, the other's is taken over, self-assignment changes nothing, the correspondence is kept |
| EventTrigger.Execute | src/trigger/EventTrigger.cpp:7-42 | after any sequence of construct, move-construct, move-assign and destroy, with other code subscribing, unsubscribing and publishing in between, the trigger-made listeners are in bijection with the live, not-moved-from triggers, each running its trigger's task |
| EventTrigger.SubscribeKeeps | src/event/EventBus.cpp:5-21 | registering a task listener extends the bijection by exactly one pair |
| EventTrigger.UnsubscribeKeeps | src/event/EventBus.cpp:33-47 | removing a held listener removes exactly its pair, though lists are searched by id only |
| EventTrigger.OtherSubscribeKeeps | src/event/EventBus.cpp:5-21 | listeners of other code never enter the bijection |
| EventTrigger.OtherUnsubscribeKeeps | src/event/EventBus.cpp:33-47 | removing any id that no trigger holds leaves the bijection alone |
| MqttClient.EncodeString | src/mqtt/MQTTClient.cpp:305-314 | a two-byte big-endian length and the text |
| MqttClient.BuildPublish | src/mqtt/MQTTClient.cpp:131-145 | the packet built is a QoS 0 PUBLISH of section 3.3 of MQTT 3.1.1, its length byte cut to eight bits |
| MqttClient.PublishBytes | src/mqtt/MQTTClient.cpp:131-145 | the packet byte for byte: 0x30, the low byte of the body length, the topic behind its two length bytes, the payload |
| MqttClient.RemainingLengthTruthful | src/mqtt/MQTTClient.cpp:141 | the length byte is true for bodies up to 127 bytes |
| MqttClient.PublishRoundTrip | src/mqtt/MQTTClient.cpp:203-287 | a packet whose first byte is 0x30 to 0x3F, with any topic below 2^16 bytes and any payload, is read back as the two events "mqtt:" + topic and "mqtt:message" with exactly that topic and payload |
| MqttClient.PacketAcceptance | src/mqtt/MQTTClient.cpp:209-262 | a buffer puts events on the bus if and only if it has four bytes, the first from 0x30 to 0x3F, and holds as many more as the two length bytes say |
| MqttClient.MqttClient.HandlePacket | src/mqtt/MQTTClient.cpp:203-297 | publishes the topic event and then the pair event of the packet, and nothing for any other or malformed buffer; other threads have their turn in between, and unless they shut the bus down both are queued in this order |
| WsService.WithSubKeepsMutual | src/services/WsService.cpp:49-56 | a subscription enters both maps; they stay mutually inverse and nothing else changes |
| WsService.WithoutSubKeepsMutual | src/services/WsService.cpp:57-64 | an unsubscription leaves both maps; no empty filter stays and nothing else changes |
| WsService.WsService.OnSubscribe | src/services/WsService.cpp:49-56 | the code does that transition; an empty topic changes nothing |
| WsService.WsService.OnUnsubscribe | src/services/WsService.cpp:57-64 | the code does that transition; an empty topic changes nothing |
| WsService.WsService.OnWsMessage | src/services/WsService.cpp:43-70 | read off the fields of the message: type "subscribe" with a topic that is not empty adds exactly that subscription, "unsubscribe" removes it, "publish" hands topic and payload (empty if missing) to the MQTT client, and every other message changes nothing and publishes nothing; an exception leaves the handler exactly on the bad ones |
| ClientMessages.CommandCases | src/services/WsService.cpp:47-69 | what the lookups make of a message, case by case, from its fields alone |
| ClientMessages.ThrowsIffBad | src/services/WsService.cpp:44-68 | the lookups throw if and only if the message is no object, or one of the fields its type looks up is there and no string |
| ClientMessages.NumberAsType | src/services/WsService.cpp:47 | {"type":5} throws |
| ClientMessages.NumberAsTopic | src/services/WsService.cpp:49-50 | {"type":"subscribe","topic":5} throws |
| ClientMessages.NumberAsPayload | src/services/WsService.cpp:65-68 | {"type":"publish","payload":5} throws: the payload is looked up even for an empty topic |
| WsService.WsService.OnClose | src/services/WsService.cpp:72-81 | the client is in neither map afterwards, every other client's entries are as before, the index stays mutual |
| WsService.WsService.FanOut | src/services/WsService.cpp:28-32 | every client connected throughout gets exactly one frame per filter of its own that matches, while others come and go |
| WsService.WsService.OnMqttMessage | src/services/WsService.cpp:17-34 | only pair payloads whose dump does not throw reach the fan-out; any other event sends nothing |
| WsService.DeliveredIffUtf8 | src/services/WsService.cpp:17-34 | a client with a matching filter gets its frames if and only if topic and payload are UTF-8, and otherwise none |
| WsService.LoneByteLost | src/services/WsService.cpp:17-34 | the payload 0xFF on topic "a" brings the subscriber of "a" nothing |
| Encoding.ForbiddenByte | src/services/WsService.cpp:21-25 | a text with a byte 0xC0, 0xC1 or from 0xF5 on, anywhere, is not UTF-8 and so makes the dump throw |
| Encoding.Utf8Append | src/services/WsService.cpp:21-25 | behind well-formed text, what follows alone decides whether the whole is well-formed |
| Encoding.Utf8Exactly | src/services/WsService.cpp:21-25 | a text is well-formed exactly when it is the encoding, six bits to a byte, of some sequence of Unicode scalar values (section 3 of RFC 3629) |
| ClientThreads.RunKeepsInv | src/services/WsService.cpp:43-81 | over every interleaving of client threads the index is mutual and only holds clients whose thread has not closed |
| ClientThreads.ClosedStaysAbsent | src/server/WsServer.cpp:154-193 | once onWsClose(c) has run, c never appears in either map again |
| Bridge.DeliverBuffer | src/services/WsService.cpp:17-34 | for any buffer, queue and interference: unless the bus is shut down first, the next complete dispatch handles what was queued before and then the packet's events in order; if the service's handler was the one at the call and no step of the bus since ended that, every event finds it, and brings each client that stays connected what it makes of the event at one index the service then had, and nothing else |
| Bridge.DeliverPublish | src/services/WsService.cpp:17-34 | end to end, for any queue, batch and interference, from the one registration at the call: a client that stays connected reads off its socket what it read before, what earlier messages of the batch bring, then one frame for each of its filters that matches if and only if topic and payload are UTF-8, all counted at one index the service had meanwhile, and then what later messages bring |
| Bridge.DispatchAndAnswer | src/event/EventBus.cpp:60-107 | one complete dispatch and the answers to all its calls: each client that stays connected gets exactly what the calls owe it, each call at an index the service then had, whoever is registered |
| Bridge.OwedByBatch | src/event/EventBus.cpp:71-106 | while the handler is registered once, the calls of a batch bring a client what its events do, one by one, each at the index its one handler call saw |
| Bridge.LoneMessage | src/services/WsService.cpp:17-34 | events that are no message pairs bring nobody anything: if the message is alone in its batch, nothing comes before or after what it brings |
| Registration.StartRegisters | src/services/WsService.cpp:17 | starting the service on a bus without a handler registers the one |
| Registration.HandlerKeptIff | src/event/EventBus.cpp:5-120 | a step of the bus keeps the one handler if and only if it is no shutdown, no second registration and not its own unsubscription |
| Registration.HandlerKept | src/event/EventBus.cpp:71-106 | while the bus has its one handler, every event that begins finds it in its snapshot, once, and no event of another name does |
| Registration.HandlerHolds | src/event/EventBus.cpp:5-120 | from one handler at any position of a run, and no step since that ends the registration, every event begun since finds it |
| Bridge.MatchingIsStandard | src/services/WsService.cpp:28-32 | for valid filters and ordinary topics the frames counted are those section 4.7 of MQTT 3.1.1 asks for |
| ModuleManager.Module.Move | src/modules/Module.cpp:16-20 | instance and handle pass over; the source keeps neither |
| ModuleManager.Module.Release | src/modules/Module.cpp:11-14 | the instance is destroyed first, then the library closed; a moved-from module does neither |
| ModuleManager.Module.MoveAssign | src/modules/Module.cpp:22-33 | the own library is given up in that order, the other's taken over, self-assignment changes nothing |
| ModuleManager.LoadLibrary | src/modules/ModuleLoader.cpp:11-49 | every failure after opening closes the handle again; success yields a module that owns it |
| ModuleManager.ShiftDown | src/modules/ModuleManager.cpp:81 | the move-assignments of vector erase close the erased module's library and no other, and move all later modules one place down |
| ModuleManager.ModuleManager.Grow | src/modules/ModuleManager.cpp:69 | reallocation moves every module to new storage and closes no library |
| ModuleManager.ModuleManager.PushBack | src/modules/ModuleManager.cpp:69 | the module is appended whether or not the vector grows, and the source owns nothing any more |
| ModuleManager.ModuleManager.Append | src/modules/ModuleManager.cpp:42-50 | the loading both load and loadFromState share, up to the end of the moved-from local |
| ModuleManager.ModuleManager.Load | src/modules/ModuleManager.cpp:54-71 | true exactly for a name not loaded yet that the loader can load; the new state is that of the ledger model |
| ModuleManager.ModuleManager.LoadFromState | src/modules/ModuleManager.cpp:38-52 | the state after it is `Restored` of the stored names in order, whose effect the next row gives |
| ModuleManager.RestoreLoadsAll | src/modules/ModuleManager.cpp:38-52 | afterwards a name is loaded if and only if it was before, or is stored and its library loads, whatever became of the names before it; modules already there stay in front, new ones follow in the order of their first place in the store, no name is loaded twice and the store is unchanged |
| ModuleManager.RestartRestores | src/modules/ModuleManager.cpp:38-87 | after any run of loads, unloads and restores, a new manager that restores the store has again every module that was loaded and still loads, and nothing that was neither loaded nor in the store at the start |
| ModuleManager.ModuleManager.Erase | src/modules/ModuleManager.cpp:81 | the entry at that place goes, all others keep name, path and handle in order, and one instance and handle are released, in this order |
| ModuleManager.ModuleManager.Unload | src/modules/ModuleManager.cpp:73-87 | true exactly for a loaded name; the first module of that name goes, and every copy of the name leaves the store |
| ModuleManager.AddedMeans | src/modules/ModuleStateStore.cpp:37-40 | add puts the name at the end unless it is there, and makes no duplicates |
| ModuleManager.RemovedTakesAll | src/modules/ModuleStateStore.cpp:42-44 | remove takes out every copy of the name; all others stay, as often as before and in their order |
| ModuleManager.ModuleManager.IndexOf | src/modules/ModuleManager.cpp:89-92 | finds the first module of that name, if any |
| ModuleManager.ModuleManager.Destroy | src/modules/Module.cpp:11-14 | the end of the manager releases every module left |
| ModuleManager.RunKeepsLedger | src/modules/ModuleManager.cpp:38-87 | through any run of loads, unloads and restores each handle is unopened, held by exactly one loaded module and open, or closed exactly once, after its instance was destroyed |
| ModuleManager.UnloadFreesOne | src/modules/ModuleManager.cpp:73-87 | unload frees the handle of the named module, completely, and no other handle's history changes |
| ModuleManager.TearDownClosesAll | src/modules/Module.cpp:11-14 | in the end every handle ever opened has been closed exactly once |
| ModuleManager.LoadKeepsNamesUnique | src/modules/ModuleManager.cpp:54-71 | while modules report their file names, no name is loaded twice |
| ModuleManager.UnloadKeepsNamesUnique | src/modules/ModuleManager.cpp:73-87 | under the same convention the name is not loaded after unload |
| LogBroadcaster.PushKeepsLast | src/logging/LogBroadcaster.cpp:32-34 | pop_front and push_back keep the last 500 entries of the history |
| LogBroadcaster.RunKeepsInv | src/logging/LogBroadcaster.cpp:24-52 | the invariant over live and backfill writes holds for every interleaving of log, connect, disconnect and backfill steps and short writes |
| LogBroadcaster.NoEntryMissed | src/logging/LogBroadcaster.cpp:24-52 | nobody gets an entry more than twice; a client that stays and no write to which came short gets every entry from position max(0, s-100) on, and those after its snapshot exactly once |
| LogBroadcaster.BroadcastOnce | src/logging/LogBroadcaster.cpp:37 | a log call that has returned wrote its entry live once to each client it found, short writes aside, and to nobody else |
| LogBroadcaster.BackfillInOrder | src/logging/LogBroadcaster.cpp:42-52 | a backfill that is through sent the last min(n, 100) entries, once each and in order, whatever live entries came in between |
| LogBroadcaster.ClientReads | src/logging/LogBroadcaster.cpp:24-52 | end to end: a client that stays and no write to which came short reads off its socket exactly the texts of the entries it got, among them each of the last 100 before its snapshot once or twice and each later one once |
| LogBroadcaster.BufferIsTail | src/logging/LogBroadcaster.cpp:32-34 | the buffer is always the last min(n, 500) entries of the history |
| LogBroadcaster.DumpsIffUtf8 | src/logging/LogBroadcaster.cpp:56-66 | an entry becomes JSON if and only if its level, source and message are UTF-8 |
| LogBroadcaster.LoneByteThrows | src/logging/LogBroadcaster.cpp:24-28 | the message 0xFF throws, whatever else the entry says |
| LogBroadcaster.LogBroadcaster.Log | src/logging/LogBroadcaster.cpp:24-38 | throws if and only if level, source or message is not UTF-8, and then nothing else happens; otherwise it is a path of the machine, with all other threads running in between, at whose end the entry is stored and written to all clients found, those that stay included |
| LogBroadcaster.LogBroadcaster.OnClientConnect | src/logging/LogBroadcaster.cpp:42-52 | is a path of the machine, with log calls running in between, at whose end the whole snapshot is sent; it never throws |
| ModuleScanner.IsDllMeansSuffix | includes/modules/scanner/WindowsModuleScanner.hpp:65-68 | the last-dot test is the suffix test: a library name ends in ".dll" in any mix of cases |
| ModuleScanner.Visit | includes/modules/scanner/WindowsModuleScanner.hpp:82-143 | each entry is put out, pushed or passed over so that output plus what the stack owes grows by exactly its recursive walk |
| ModuleScanner.ScanListing | includes/modules/scanner/WindowsModuleScanner.hpp:82-143 | the inner loop does so for a whole listing, and pushes no more than the listing holds |
| ModuleScanner.ScanIterative | includes/modules/scanner/WindowsModuleScanner.hpp:82-143 | ends on every finite tree; the output is, as a multiset, the recursive walk that prunes links, skipped and unreadable folders and keeps valid libraries, each visited once |
| ModuleScanner.WalkListsReached | includes/modules/scanner/WindowsModuleScanner.hpp:82-143 | the walk lists exactly the files that some path of entries leads to, through readable folders that are no links and none of the ten skipped names, to a valid name ending in ".dll" |

## Left out

- CastProto.ReadStringField: takes `pos + len` over the naturals; the source adds in 64 bits, so a length near 2^64 that wraps is not modelled.
- CastProto.EncodeCastMessage: covers strings below 2^64 bytes, which is every `std::string`.
- WsFrames.WriteFrame: covers frames below 2^31 bytes, as do `WsServer.WsServer.Send`, the JSON texts of `WsService` and the log entries; beyond that the source hands a wrapped size to `send`.
- WsFrames.ReadFrame: a frame that announces 2^31 bytes or more counts as an error; what `recv` and the allocation do with such a size is not modelled.
- Sha1.PadMessage: the 64-bit length field of messages of 2^61 bytes and more wraps in the model as in the source, but `len * 8` itself is an unbounded product.
- MqttClient.MqttClient.HandlePacket: leaves out a PUBLISH buffer of a single byte, on which the source reads past the end.
- Bridge.DeliverBuffer: the dispatch starts after the packet is handled; one that starts between its two publications takes the topic event in one batch and leaves the message to the next, and `Bridge.DispatchAndAnswer` speaks of each. The handler neither reads nor writes the bus, so its calls are carried out after the dispatch, in order.
- EventBus.EventBus.Others: a callback may do anything to the bus except re-enter `dispatchPending`; there is one dispatcher, as in the program's main loop.
- CastChannel.CastChannel.ReceiveLoop: accounts for the answers it writes itself; other threads sending meanwhile are the machine of `CastWire.dfy`.
- EventTrigger.Execute: runs on an active bus; after shutdown `subscribe` returns -1 and a trigger holds nothing.
- LogBroadcaster.NoEntryMissed: speaks of a client whose backfill is through and of log calls that have returned; `nowIso` is a parameter of ASCII text.
- WsServer.WsServer.Send: a frame is one atomic write to one client; reuse of a closed socket number and the bytes of the handshake are not modelled.
- ModuleScanner.ScanIterative: the file system does not change during the walk, and `_wcsicmp` folds the ASCII letters only.
- MQTT packet identifiers, keep-alive, several packets in one buffer, packets over 127 bytes of body (the reader ignores the length byte).
- The `$` rule of section 4.7.2 of MQTT 3.1.1, and what `topicMatches` says of invalid filters.
- Id counters are unbounded: `int` overflow of listener and client ids is not modelled.
- A moved-from `std::function` is taken to be empty, and a moved-from string is not read.
- JSON text: parsing, the PING test and the text `dump` produces are parameters; when the lookups and `dump` throw is modelled.
- What module code does in `initialize` and `shutdown`, and the `event:enable` and `event:disable` events around them.
- `ModuleManager::loadFromDirectory`, and file I/O of the state store, whose contents are a list here.
- Sockets, TLS, threads and clocks: a stream that cuts and fails at will, and atomic steps per lock section; `SSL_shutdown` during a write is not modelled, nor is `WsServer::stop`.
- Heartbeat timing, `sendConnect` and `sendHeartbeat`, which are calls of `send` with fixed messages.
- The `ResultCallback` overload of `subscribe`, and all logging output.
- Configuration, HTTP, scheduler, registries, MCP and the command line: wiring with no property beyond one function body.
