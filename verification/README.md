# The door camera's protocols and codecs, verified

A Raspberry Pi watches a door, switches a light, and talks to browsers over a hand-written WebSocket server. This
project models the parts of that program with real state, loops or arithmetic, and proves what they are for:

- **WebSocket framing.** `TcpConnection` is the connection object, its fields updated in place, one invocation of
  `handleFragment` at a time. `WebSocketWire` is an independent one-shot codec for section 5.2 of RFC 6455, proved a
  bijection between octet strings and frames followed by an incomplete frame. `FrameReceiver` is the meeting point: one
  step of the machine as a function, and its run over a stream. `FramingRefinement` proves that on *every* octet string
  the machine delivers what parsing, unmasking and concatenating deliver, whatever the handshake left in the buffer.
- **Handshake and reads.** `Handshake` computes the 101 response through the in-place digest swap and the streaming
  Base64 encoder. `ReadRequest` says exactly when the completion condition of a read works.
- **Block buffering and Base64.** `PositionalFacade` is the generic adapter for any block size; `Base64` and
  `Base64Streams` are the codec and its two filters; `Base64Reference` is the encoding by bits, as section 4 of RFC 4648
  describes it.
- **Active object, observers, light.** `ActiveObject` is the queue and its worker under every interleaving,
  `LightControl` the subject with its switches, `RemoteControl` the protocol in which connection threads construct, use
  and destroy observers while one worker runs what they push.
- **Checksum, debouncer, status, coverage.** `IcmpChecksum` (RFC 1071), `Debouncer`, and `Text`, `StatusMessage`,
  `Coverage` for the status message from the server's printer to the cells of the page's week table.
- **Published examples.** `StandardExamples` holds the definitions to the octets and texts that the RFCs print.

Where the source updates fields or arrays or loops, the model is a class or a method proved equal to a function, and the
properties are proved about that function. `dafny verify dfyconfig.toml` checks everything.

## Where the code departs from its documents

The model follows the code. Each departure below is part of a proved statement.

- A control frame, a close frame or an unmasked frame ends the conversation silently, even between the fragments of a
  message (`FramingRefinement.RefusedFrameEnds`); RSV bits and length forms longer than necessary are accepted; a
  continuation frame without a start appends to the previous message (`FramingRefinement.RunRefinesParse`).
- Octets that arrive with the handshake stay in the stream buffer for good: the machine runs that many octets late
  (`FrameReceiver.RunWithResidue`), and a complete frame among them waits (`FramingRefinement.ResidueHeldBack`;
  `FramingRefinement.NothingHeldBackIff` says exactly when nothing does).
- The completion condition receives the cumulative count but subtracts it as if it were the last transfer, so a read
  ends with the right number of octets only if its first transfer fills it; it can end short (`ReadRequest.CompletesShort`).
- Several key lines in one request concatenate their tokens, and none leaves the accept field empty
  (`Handshake.NoneOrTwo`). The field name is matched with its exact case.
- A request that ends strictly inside a padded last group makes the Base64 decoder add octets that were never encoded
  after the data, because the tail path sets `count_` from the block size (`Base64Streams.StreamDecode`, and
  `Base64Streams.OneOctetReadAsTwo` for the shortest case).
- The checksum is wrong unless 65535 divides the number of carries lost from the 32-bit accumulator; 131069 octets
  suffice (`IcmpChecksum.AcceptedIff`, `IcmpChecksum.LongerBodyRejected`).
- The page starts at field 6 while intervals start at field 4, so the first two intervals are never shown
  (`StatusMessage.Display`, `StatusMessage.OneIntervalLost`); the server covers no hour of an interval that wraps round
  the week, which the page paints (`Coverage.PaintedIsCoveredIff`).
- A constructor or destructor of `RemoteControl` waits for good exactly when a stop marker stands before its item or the
  worker is stuck (`RemoteControl.ReturnsIff`, with the run `RemoteControl.StopThenConstruct`).
- While it sends a status the worker holds a reference to the connection. When the connection lets go of itself
  meanwhile, that reference is the last one and the observer is destroyed on the worker, whose destructor pushes under
  the mutex the worker holds: the worker waits for itself, or worse, since locking a `std::mutex` twice is undefined.
  `RemoteControl.LocksUpIff` says exactly when this can happen, `RemoteControl.StatusRequestLocksUp` is a run of it.
- A row of the coverage table with a weekday outside 0 to 6 makes the check throw if no row before it covers the hour
  (`Coverage.CheckIfInCoverage`).

## Model

| member | source | states |
|---|---|---|
| FramingRefinement.RunRefinesParse | PiCam/TcpServer/TcpConnection.h:159-283 | for every octet string the machine delivers, at each FIN frame and only there, the unmasked payloads since the latest non-zero opcode, of the frames before the first refused one; it stops reading exactly when a frame or the start of one must be refused |
| FramingRefinement.SerialisedFramesDelivered | PiCam/TcpServer/TcpConnection.h:159-283 | every sequence of masked frames with opcode 0, 1 or 2, in any length form that fits, is delivered in order and leaves the connection reading |
| FramingRefinement.FragmentedMessagesArrive | PiCam/TcpServer/TcpConnection.h:159-283 | messages that arrive in masked data frames, each fragmented in any way, are delivered by the machine as exactly those messages, in order, and it keeps reading |
| FramingRefinement.RefusedFrameEnds | PiCam/TcpServer/TcpConnection.h:169-193 | any frame that has to be refused, such as a control frame that section 5.4 allows between fragments, ends the conversation: what came before is delivered, and nothing of what follows |
| FramingRefinement.PingEndsMessage | PiCam/TcpServer/TcpConnection.h:177-180 | a ping between the fragments of a message, and the message is never delivered |
| FramingRefinement.ResidueHeldBack | PiCam/TcpServer/TcpConnection.h:80-157 | a complete frame left over by the handshake is delivered when as many octets have followed it, and not before |
| FramingRefinement.NothingHeldBackIff | PiCam/TcpServer/TcpConnection.h:80-268 | all messages of the residue and what followed it have been delivered if and only if no accepted FIN frame among them ends within the last octets, as many as the residue has |
| FramingRefinement.DeliveriesWithResidue | PiCam/TcpServer/TcpConnection.h:132-268 | the refinement for a connection whose handshake left octets behind: the stream parsed is the residue followed by what arrives, without its last octets |
| FrameReceiver.RunSplit | PiCam/TcpServer/TcpConnection.h:140-283 | running on s1 then s2 gives the state, deliveries and unread octets of running on s1 followed by s2, for every machine state and cut |
| FrameReceiver.StoppedForGood | PiCam/TcpServer/TcpConnection.h:179-193 | after an unsupported opcode or a missing mask nothing more is consumed or delivered, whatever follows |
| FrameReceiver.RunWithResidue | PiCam/TcpServer/TcpConnection.h:80-157 | octets left in the buffer delay the machine by a constant number of octets and change nothing else |
| FrameReceiver.StepIsLocal | PiCam/TcpServer/TcpConnection.h:159-268 | one invocation consumes exactly the octets its predecessor requested and does not depend on what follows them |
| WebSocketWire.ParseSerialise | PiCam/TcpServer/TcpConnection.h:159-283 | parsing a serialised frame returns it and the octets after it, for all masks, opcodes and length forms |
| WebSocketWire.SerialiseAllParseAll | PiCam/TcpServer/TcpConnection.h:159-283 | every octet string is the serialisation of its frames followed by an incomplete frame |
| WebSocketWire.ParseAllSerialiseAll | PiCam/TcpServer/TcpConnection.h:159-283 | parsing returns exactly the frames serialised, in order, and the incomplete tail after them |
| WebSocketWire.MaskedTwice | PiCam/TcpServer/TcpConnection.h:253-257 | unmasking with the masking key restores the payload |
| WebSocketWire.MaskedBits | PiCam/TcpServer/TcpConnection.h:253-257 | a bit of a masked octet differs from the bit of the payload exactly where octet i modulo 4 of the key has a one |
| WebSocketWire.SerialisedLayout | PiCam/TcpServer/TcpConnection.h:45-70 | the octets of a frame at their positions: first octet, mask bit with length, extended length most significant first, key, payload |
| StandardExamples.MaskedHelloReceived | PiCam/TcpServer/TcpConnection.h:159-268 | the masked text frame of section 5.7 of RFC 6455, octet by octet, is delivered as "Hello" |
| StandardExamples.HelloSent | PiCam/TcpServer/TcpConnection.h:45-70 | sending "Hello" writes the unmasked text frame of section 5.7, octet by octet |
| TcpConnection.TcpConnection.HandleFragment | PiCam/TcpServer/TcpConnection.h:159-268 | one completed read takes the whole connection to the state of the reference step, or ends the conversation on an error; the socket is not written |
| TcpConnection.TcpConnection.HandlePayload | PiCam/TcpServer/TcpConnection.h:245-265 | the payload is unmasked onto the message, a FIN frame hands the message over, and one octet is requested next |
| TcpConnection.TcpConnection.GetReversed | PiCam/TcpServer/TcpConnection.h:212-232 | octets stored back to front and read as a machine integer give the big-endian length |
| TcpConnection.TcpConnection.SetPayloadLengthAndNextStep | PiCam/TcpServer/TcpConnection.h:270-283 | records the length and requests the mask or the payload |
| TcpConnection.Converse | PiCam/TcpServer/TcpConnection.h:132-283 | a whole conversation after the handshake hands over exactly the messages the accepted frames spell out |
| TcpConnection.TcpConnection.Send | PiCam/TcpServer/TcpConnection.h:45-70 | what is written is the section 5.2 serialisation of one final unmasked frame with the message as payload |
| TcpConnection.SendsParseBack | PiCam/TcpServer/TcpConnection.h:45-70 | any list of messages sent one after the other parses back to those messages, final, unmasked and with the right opcodes, with nothing left over |
| TcpConnection.FirstOctetSent | PiCam/TcpServer/TcpConnection.h:47-47 | the first octet sent is 0x81 for text and 0x82 for binary |
| TcpConnection.ShortestForm | PiCam/TcpServer/TcpConnection.h:48-66 | no valid frame carries a payload of that size in a shorter length form |
| ReadRequest.ReadRequest.CompletionCondition | PiCam/TcpServer/TcpConnection.h:143-155 | the count passed in is subtracted from the 32-bit counter, which is also the answer; an error ends the read |
| ReadRequest.ExactIffFilledAtOnce | PiCam/TcpServer/TcpConnection.h:140-157 | a completed read of at most 16384 octets brings exactly the octets asked for if and only if its first transfer does |
| ReadRequest.LaterTransfersOvershoot | PiCam/TcpServer/TcpConnection.h:145-149 | once two or more transfers add up to the request the counter is not zero, so the read goes on |
| ReadRequest.CounterIsRemainder | PiCam/TcpServer/TcpConnection.h:147-148 | the counter is the request minus the sum of all cumulative counts, modulo 2^32 |
| ReadRequest.CounterExamples | PiCam/TcpServer/TcpConnection.h:143-149 | the counter after one, two and three transfers, and past zero |
| ReadRequest.CompletesShort | PiCam/TcpServer/TcpConnection.h:145-149 | a read of four octets completes with three after transfers of one and two |
| ReadRequest.Read | PiCam/TcpServer/TcpConnection.h:140-157 | the condition called after each transfer stops at the first whose counter is zero, and only there |
| ReadRequest.ReadExactly | PiCam/TcpServer/TcpConnection.h:140-157 | a read run to completion with the object has its octets if and only if its first transfer fills it |
| Handshake.Negotiate | PiCam/TcpServer/TcpConnection.h:83-130 | the response to a header carries the concatenated tokens of its key lines |
| Handshake.OneKeyLine | PiCam/TcpServer/TcpConnection.h:92-128 | with one key line at any position, with or without a carriage return, the accept field is the Base64 of the digest of its key followed by the GUID |
| Handshake.KeyLineIff | PiCam/TcpServer/TcpConnection.h:87-108 | a line counts as key line exactly when it starts with the field name, a colon and a space |
| Handshake.ResponseText | PiCam/TcpServer/TcpConnection.h:98-103 | the text of the response around the accept field |
| Handshake.EmptyLineIff | PiCam/TcpServer/TcpConnection.h:92-96 | the header ends at an empty line or one with only a carriage return |
| StandardExamples.SampleAccepted | PiCam/TcpServer/TcpConnection.h:106-126 | the key of section 1.3 of RFC 6455, given its digest, is answered with the text of that section |
| Handshake.AcceptTokenForm | PiCam/TcpServer/TcpConnection.h:110-125 | a token has 28 characters and ends in its only padding character |
| Handshake.TokenFormIffOneKeyLine | PiCam/TcpServer/TcpConnection.h:106-128 | the accept field has the length of a token exactly when the request had one key line |
| Handshake.NoneOrTwo | PiCam/TcpServer/TcpConnection.h:106-128 | a request without a key line leaves the field empty, one with two key lines makes it 56 characters |
| Handshake.SwapWords | PiCam/TcpServer/TcpConnection.h:114-120 | swapping octets within each word in place turns the digest's little-endian memory into its octets in standard order |
| Handshake.Negotiation.HandleReadHandshake | PiCam/TcpServer/TcpConnection.h:83-130 | an empty line answers and stops listening, a key line appends its token, any other line changes nothing |
| PositionalFacade.OutputFacade.Write | include/hamigaki/iostreams/arbitrary_positional_facade.hpp:338-384 | for any block size, the blocks handed over followed by the carry buffer grow by exactly the octets written; the count stays below the block size, the result is the length or -1 for an empty write, and no assertion can fail |
| PositionalFacade.OutputFacade.Close | include/hamigaki/iostreams/arbitrary_positional_facade.hpp:191-202 | the carry buffer, shorter than a block, is flushed after everything else |
| PositionalFacade.InputFacade.Read | include/hamigaki/iostreams/arbitrary_positional_facade.hpp:285-336 | what a request returns and what remains to be read are, in order, what a sound source held, followed by filler up to the block size when the request meets a short final block |
| PositionalFacade.AccountsInOrder | include/hamigaki/iostreams/arbitrary_positional_facade.hpp:319-333 | a request returns the next octets and leaves the others exactly when it meets no short block |
| PositionalFacade.AccountsPart | include/hamigaki/iostreams/arbitrary_positional_facade.hpp:319-333 | a block fetched for the end of a request, whole or short, is split between the caller and the carry buffer without loss |
| PositionalFacade.InputFacade.ReadPart | include/hamigaki/iostreams/arbitrary_positional_facade.hpp:319-333 | a block read for the end of a request is split between the caller and the carry buffer |
| PositionalFacade.AccountsAfter | include/hamigaki/iostreams/arbitrary_positional_facade.hpp:290-298 | a request that starts from carried octets accounts for the octets as one for the remaining number does |
| Base64Streams.StreamEncode | include/hamigaki/iostreams/base64.hpp:152-195 | for every way of cutting a string into writes, followed by one close, the output is the bit-level Base64 of the whole string |
| StandardExamples.TestVectors | include/hamigaki/iostreams/base64.hpp:152-195 | the test vectors of section 10 of RFC 4648 through the streaming encoder, cut anywhere |
| Base64.Alphabets | include/hamigaki/iostreams/base64.hpp:26-87 | the two alphabets, character by character |
| Base64.PlaceInAlphabet | include/hamigaki/iostreams/base64.hpp:36-125 | a character is read as its place in the alphabet, and not at all when it has none |
| Base64.QuadAccepted | include/hamigaki/iostreams/base64.hpp:228-244 | which quads are accepted: four characters of the alphabet, or three or two before padding |
| Base64.QuadDecoded | include/hamigaki/iostreams/base64.hpp:240-252 | the octets an accepted quad decodes to, from the places of its characters; bits left over are ignored |
| Base64Reference.EncodeIsReference | include/hamigaki/iostreams/base64.hpp:152-195 | the group-wise encoder equals the bit-level definition of section 4 of RFC 4648 |
| Base64Reference.PaddingAfterBits | include/hamigaki/iostreams/base64.hpp:178-195 | character i of the text of n octets is padding exactly when 6i >= 8n |
| Base64Reference.EncodeOfBlocks | include/hamigaki/iostreams/base64.hpp:165-195 | whole groups followed by the flush of the rest give the text of the whole |
| Base64Streams.WriteBlocks | include/hamigaki/iostreams/base64.hpp:165-176 | the loop emits one quad for each group of three octets, in order |
| Base64Streams.CloseWithFlush | include/hamigaki/iostreams/base64.hpp:178-195 | one or two octets give one padded quad, none gives nothing |
| Base64Streams.ReadBlocks | include/hamigaki/iostreams/base64.hpp:255-271 | the loop decodes up to n quads of any text and keeps the rest; a text that ends inside a quad is completed from what the local buffer held |
| Base64Streams.ReadQuadsFails | include/hamigaki/iostreams/base64.hpp:255-271 | reading throws exactly when one of the quads asked for does not decode |
| Base64Streams.ReadQuadsDelivers | include/hamigaki/iostreams/base64.hpp:228-271 | from sound text k quads give the next 3k octets, or all that are left |
| Base64Streams.StreamDecode | include/hamigaki/iostreams/arbitrary_positional_facade.hpp:285-336 | over any sequence of requests the octets come back in order, each once; how many octets come back; and only they do exactly when no request ends inside a short last group or the requests stop before the end |
| Base64Streams.MultiplesOfThreeAreSafe | include/hamigaki/iostreams/arbitrary_positional_facade.hpp:319-333 | requests in multiples of three never end inside a short group |
| Base64Streams.WholeGroupsAreSafe | include/hamigaki/iostreams/arbitrary_positional_facade.hpp:319-333 | with a whole number of groups encoded no request does, whatever the sizes |
| Base64Streams.RoundTrip | include/hamigaki/iostreams/base64.hpp:152-271 | for all writes and all request sizes, encoding, decoding and reading return the octets written up to the number requested; requests beyond the end return just them exactly when none ends inside a short last group |
| Base64Streams.OneOctetReadAsTwo | include/hamigaki/iostreams/base64.hpp:228-271 | one octet encoded and two requested: two come back |
| Base64.DecodeEncode | include/hamigaki/iostreams/base64.hpp:152-253 | decoding undoes encoding for every octet string and both alphabets |
| Base64.EncodeLength | include/hamigaki/iostreams/base64.hpp:165-195 | n octets give four characters for every three octets begun |
| Base64.ReencodesIffCanonical | include/hamigaki/iostreams/base64.hpp:22-253 | accepted text re-encodes to itself exactly when padding stands only in the last quad and the unused bits there are zero (section 3.5 of RFC 4648) |
| Base64.CharRoundTrip | include/hamigaki/iostreams/base64.hpp:22-126 | every character the table accepts is the one its value encodes to |
| Base64.DigitRoundTrip | include/hamigaki/iostreams/base64.hpp:22-126 | every value survives encoding and decoding and none encodes to padding |
| ActiveObject.ActiveObject.DoPush | PiCam/ActiveObject.h:42-49 | an entry goes to the end of the queue |
| ActiveObject.ActiveObject.WorkIteration | PiCam/ActiveObject.h:51-65 | a stop marker in front ends the worker and stays, an item in front is run once and removed |
| ActiveObject.RunConserves | PiCam/ActiveObject.h:42-65 | in every interleaving what was pushed is what was executed followed by the queue |
| ActiveObject.PushedInOrder | PiCam/ActiveObject.h:26-49 | the history of what was pushed is what the steps pushed, in order |
| ActiveObject.ExecutedInOrder | PiCam/ActiveObject.h:26-65 | what has run is a prefix, in push order, of the items pushed before the first stop marker |
| ActiveObject.EndedRanAll | PiCam/ActiveObject.h:26-65 | once the worker has ended, every item before the first stop marker has run, and no other |
| ActiveObject.HistoriesGrow | PiCam/ActiveObject.h:42-65 | what has run stays run, and nothing more runs after the end |
| ActiveObject.RunsAtItsTurn | PiCam/ActiveObject.h:51-65 | an item before any stop marker runs in the worker's turn of its position, and until then the worker can always take a turn |
| RemoteControl.RunIsSafe | PiCam/RemoteControl.h:16-86 | in every interleaving, the destruction of an object on the worker itself included, the next item run updates only objects that exist and signals only a constructor or destructor still waiting |
| RemoteControl.NextKeepsInv | PiCam/RemoteControl.h:16-86 | every step of every thread keeps the invariant: nothing about an object comes before its attach or after its detach, mObservers holds exactly the attached objects, waiters have their item queued |
| RemoteControl.OthersKeepUpdatable | PiCam/RemoteControl.h:54-70 | no other thread can end the life of an object that the item under way may update |
| RemoteControl.GoneIsForgotten | PiCam/RemoteControl.h:54-70 | no queued item and no place in mObservers refers to an object that does not exist |
| RemoteControl.ChangesReachEveryone | PiCam/Subject.h:22-28 | of the updates that a change of a switch leads to, exactly one is for each attached object, none for another, and all carry the status it led to |
| RemoteControl.RunIsSequential | PiCam/ActiveObject.h:42-87 | under every interleaving the control is what the executed commands make of it one after the other, and the light agrees with the switches |
| RemoteControl.ReturnsIff | PiCam/RemoteControl.h:16-70 | in every state of every run a waiting constructor or destructor can still return if and only if no stop marker stands before its item and the worker is not stuck, and then after one turn more than there are items before its own |
| RemoteControl.WaitsForever | PiCam/RemoteControl.h:16-70 | behind a stop marker, or with the worker stuck, it returns in no continuation of the run, whatever the threads do |
| RemoteControl.ReleasedInTime | PiCam/RemoteControl.h:16-70 | with neither, in every run, it has been released once the worker has taken one turn more than there were items before its own, unless the worker gets stuck |
| RemoteControl.StopThenConstruct | PiCam/RemoteControl.h:16-33 | a stop pushed before a construction blocks it while the worker is still running |
| RemoteControl.LocksUpIff | PiCam/RemoteControl.h:118-140 | in every state of every run: the worker can come to wait for its own mutex in its next turn if and only if the item in front is the status request of a live object, or sets a switch while some live object has a connection as its sender |
| RemoteControl.StuckIff | PiCam/ActiveObject.h:42-65 | a run is stuck if and only if some earlier turn destroyed an object on the worker |
| RemoteControl.StuckSince | PiCam/ActiveObject.h:42-65 | a stuck run has been so since a step at which the condition held, and nothing has been pushed or run since |
| RemoteControl.StatusRequestLocksUp | PiCam/RemoteControl.h:118-140 | the run of six steps in which a status request meets a connection that lets go of itself, and locks the worker up |
| RemoteControl.DoorAloneIsSafe | PiCam/RemoteControl.h:118-121 | the run in which the door opens with no client: the server's own object is updated, and nothing can lock up |
| RemoteControl.PayloadsUnderstood | PiCam/RemoteControl.h:77-107 | which texts do what: a name, one bar and a value that is on only when it is "1", or exactly get_status; any other text is ignored |
| RemoteControl.StepPushes | PiCam/RemoteControl.h:16-107 | what each step of each thread pushes, a payload by its text: the history grows by that and nothing else |
| RemoteControl.TakeTurn | PiCam/ActiveObject.h:51-65 | on the objects themselves, front item, control and flags, one iteration of the worker is the step system's turn |
| RemoteControl.RemoteControl.Receive | PiCam/RemoteControl.h:77-107 | a payload pushes the command it stands for, or nothing |
| RemoteControl.RemoteControl.constructor | PiCam/RemoteControl.h:16-33 | construction pushes the attach of this object |
| RemoteControl.RemoteControl.BeginDestruction | PiCam/RemoteControl.h:54-67 | destruction pushes the detach of this object |
| LightControl.CameraAndLightControl.Attach | PiCam/Subject.h:12-15 | the observer is added at the end |
| LightControl.CameraAndLightControl.Detach | PiCam/Subject.h:16-19 | every occurrence of the observer goes, the others keep their order |
| LightControl.DetachKeepsOrder | PiCam/Subject.h:16-19 | taking an observer out of a list leaves those before and after it as they were |
| LightControl.AttachedInOrder | PiCam/Subject.h:12-15 | observers stand in the order in which they were attached |
| LightControl.NewUpdates | PiCam/Subject.h:22-28 | the updates of a command, one by one: who is told, in which order, and the status |
| LightControl.CameraAndLightControl.Notify | PiCam/Subject.h:22-28 | each observer is updated with the current status, in order of attachment |
| LightControl.CameraAndLightControl.DoorSwitch | PiCam/CameraAndLightControl.h:53-73 | the door is recorded, the light follows door or override, the notifier performs when the door opens, everyone is told |
| LightControl.CameraAndLightControl.LightOverride | PiCam/CameraAndLightControl.h:100-112 | the override is recorded, the light follows door or override, everyone is told |
| LightControl.CameraAndLightControl.CoverageAlwaysOn | PiCam/CameraAndLightControl.h:114-118 | the parameter is stored and everyone is told |
| LightControl.LightFollowsSwitches | PiCam/CameraAndLightControl.h:53-112 | after every run of commands the light is on exactly when the door is open or the override set |
| LightControl.DoorIsLast | PiCam/CameraAndLightControl.h:53-55 | the door is shown as the last report of it said, and closed before the first |
| LightControl.OverrideIsLast | PiCam/CameraAndLightControl.h:100-102 | the override is shown as last set, and off before |
| LightControl.AlwaysOnIsLast | PiCam/CameraAndLightControl.h:114-117 | the same for the parameter that keeps the coverage always on |
| LightControl.GpioStep | PiCam/CameraAndLightControl.h:132-154 | a command writes to the GPIO exactly when it changes the light: one symbol, its new level |
| LightControl.GpioAlternates | PiCam/CameraAndLightControl.h:132-154 | the GPIO output strictly alternates, "1" first, and its parity is the light |
| LightControl.DestroyedDark | PiCam/CameraAndLightControl.h:45-51 | after destruction the light is off and the last symbol written, if any, is "0" |
| LightControl.UpdatesConsistent | PiCam/CameraAndLightControl.h:53-118 | every status ever sent to an observer shows a light that agrees with the switches |
| LightControl.PerformsOnOpenings | PiCam/CameraAndLightControl.h:59-63 | the notifier performs exactly once for each opening of the door |
| LightControl.Lifetime | PiCam/CameraAndLightControl.h:25-51 | the object made, given any commands and destroyed: its GPIO output alternates and ends dark |
| IcmpChecksum.ComputeChecksum | ConnectionMonitor/icmp_header.hpp:74-92 | only the checksum field changes, and a receiver accepts the packet exactly when the carries lost from the accumulator are a multiple of 65535; always for bodies of at most 131068 octets |
| IcmpChecksum.AcceptedIff | ConnectionMonitor/icmp_header.hpp:74-92 | the one's-complement sum of header words, stored checksum and zero-padded body words is 0xFFFF under exactly that condition |
| IcmpChecksum.TwoFoldsSuffice | ConnectionMonitor/icmp_header.hpp:89-91 | the two folds reduce every 32-bit accumulator to its one's-complement value |
| IcmpChecksum.OnesSumIsFolded | ConnectionMonitor/icmp_header.hpp:81-91 | end-around-carry addition of any words is the fold of their plain sum |
| StandardExamples.SampleSum | ConnectionMonitor/icmp_header.hpp:81-87 | the numerical example of section 3 of RFC 1071 has the sum given there |
| StandardExamples.OddOctet | ConnectionMonitor/icmp_header.hpp:84-86 | an octet at the end counts as the high half of a word |
| IcmpChecksum.ShortBodiesFit | ConnectionMonitor/icmp_header.hpp:78-87 | a body of at most 131068 octets cannot overflow the accumulator |
| IcmpChecksum.LongerBodyRejected | ConnectionMonitor/icmp_header.hpp:78-91 | a body of 131069 octets can, and then the packet is rejected |
| IcmpChecksum.Accumulate | ConnectionMonitor/icmp_header.hpp:81-87 | the body loop adds the zero-padded words modulo 2^32, odd lengths included |
| IcmpChecksum.IcmpHeader.Encode | ConnectionMonitor/icmp_header.hpp:65-69 | a field written is the field read back, and no other octet changes |
| Debouncer.MonitorPins | PiCam/main.cpp:48-81 | the counter loop pushes exactly the flips of the window specification |
| Debouncer.CounterStep | PiCam/main.cpp:56-80 | the saturating counter is the largest window excess since the last flip, and the value flips on leaving 0 to 10 |
| Debouncer.WindowIffPeak | PiCam/main.cpp:56-80 | some window ending now has an excess of k exactly when the clamped running excess has reached k |
| Debouncer.CounterInRange | PiCam/main.cpp:56-71 | between samples the counter is within 0 and 10 |
| Debouncer.PushesAlternate | PiCam/main.cpp:60-79 | pushed values alternate, starting with true |
| Debouncer.FlipsElevenApart | PiCam/main.cpp:56-80 | any two flips are at least 11 samples apart |
| Debouncer.ElevenSettle | PiCam/main.cpp:56-80 | 11 equal samples in a row settle the output, whatever came before |
| StatusMessage.SendStatus | PiCam/RemoteControl.h:118-140 | the message is the four flags and the intervals joined by bars |
| StatusMessage.FlagPlaces | PiCam/RemoteControl.h:123-130 | the four flags, each in its place |
| StatusMessage.MessageExample | PiCam/RemoteControl.h:123-137 | the text of a message with two intervals |
| StatusMessage.FieldsSurvive | PiCam/RemoteControl.h:123-137 | splitting the message returns the fields, and field 4+i parses to interval i, for all integers |
| StatusMessage.ParseMessage | WebClient/index.html:39-88 | for every message on which the page's loop ends: the flags are shown, the fields from index 6 on are painted in order, and it throws at the first that is no interval of the week table |
| StatusMessage.VisitedIntervals | WebClient/index.html:81-87 | the fields the page visits are the intervals without the first two |
| StatusMessage.StartsAtSix | WebClient/index.html:81-81 | of seven fields the page visits the last, and of three intervals the third is left |
| StatusMessage.Display | WebClient/index.html:39-109 | from the server's status to the page: all flags arrive, and the painted cells are those of the intervals after the second, up to the first that is not one of the week table, where the page throws |
| StatusMessage.TableCompleteIff | WebClient/index.html:81-87 | the table shows all intervals exactly when the first two add no cell to the others |
| StatusMessage.VisitsAllIff | WebClient/index.html:81-81 | the page visits every interval only when there is none |
| StatusMessage.OneIntervalLost | WebClient/index.html:81-81 | one valid interval, and a table without a cell switched on |
| Text.JoinSplit | WebClient/index.html:41-85 | joining the fields of a split gives the text back |
| Text.SplitJoin | WebClient/index.html:41-85 | fields without the separator survive joining and splitting |
| Text.ParseToString | WebClient/index.html:86-86 | a printed integer is read back, negative ones included |
| Text.NumberExamples | WebClient/index.html:86-86 | numbers as they are printed, and texts that are read in part or not at all |
| Coverage.WriteCoverageInTable | WebClient/index.html:90-109 | for every interval on which the loop ends: it has painted exactly the cells of the cyclic interval, or has thrown without painting because the interval is not one of the week table |
| Coverage.EndlessNeverEnds | WebClient/index.html:94-106 | from a cell of the table to an end outside it the loop goes round the table for ever, so the intervals excluded above are exactly those |
| Coverage.StepsAreHours | WebClient/index.html:94-106 | it takes (end - begin) modulo 168 steps |
| Coverage.PaintedIsCoveredIff | PiCam/Notifier.h:193-199 | painted and covered hours agree exactly when the interval does not wrap; the server covers no hour of one that does |
| Coverage.AgreementIff | PiCam/Notifier.h:183-219 | for a list, covered hours are painted, and the two agree exactly when wrapping intervals paint only hours covered anyway |
| Coverage.CheckIfInCoverage | PiCam/Notifier.h:183-200 | yes when some row is the text "1", or when the first row to decide covers the present hour; an exception when the first row to decide has a weekday outside 0 to 6; no otherwise |
| Coverage.CheckMeans | PiCam/Notifier.h:193-199 | what the check of one row answers, in hours from the beginning of the week |
| Coverage.KnownWeekdaysCovered | PiCam/Notifier.h:193-199 | on rows with weekdays of the week the check never throws, and says yes exactly when some interval covers the hour |
| Coverage.CheckCoverageForStatement | PiCam/Notifier.h:202-219 | the scan ends at the first row that passes or throws, with its answer, and says no exactly when there is none |

## Left out

- TcpConnection.Converse: takes every request as filled in one transfer that fits the 16 KiB buffer; `ReadRequest` is about where that assumption comes from. Boost.Asio sockets, timers and accept loops are left out.
- ReadRequest.Read: does not model that a composed read also ends when the stream buffer is full, or a transfer fails or brings nothing.
- TcpConnection.TcpConnection.GetReversed: does not truncate an 8-octet length to the 32-bit `size_t` of the ARM target; lengths are unbounded.
- The `seek` of the facade: no class here defines `seek_blocks`, so it is never instantiated.
- Base64Streams.ReadBlocks: takes what the uninitialised local buffer holds as one parameter, since only the last read of a call can be short; the streams of `Base64Streams.StreamDecode` carry encoded text, whole quads.
- Writing to a facade after `close`, or closing it twice.
- Signed `char` in the facade and the codec: octets are numbers from 0 to 255, as the conversions of the codec make them.
- PositionalFacade.InputFacade.Read: what fills up a short block is the previous contents of `buffer_`, so the filler is stated by number, not by value; after an exception nothing is claimed about the octets left.
- Spurious wake-ups and the lifetime of condition variables: a wait is a phase that ends after its flag is set.
- RemoteControl.RunIsSafe: once the worker waits for its own mutex the model stops there; which updates of the item under way were made before is not recorded.
- RemoteControl.LocksUpIff: when a connection lets go of itself is a step any live one can take, as destruction is; the asynchronous handlers that hold the other references are not counted one by one.
- RemoteControl.RemoteControl.constructor: the wait for the attach is not in this contract; it is the phase Attaching of the step system.
- RemoteControl.RemoteControl.BeginDestruction: the wait for the detach is not in this contract; it is the phase Detaching of the step system.
- The race between `setSender` on a connection thread and the read of the same weak pointer by the worker: `Listen` is one step.
- SHA-1 itself, which is a function parameter returning five words.
- SQLite: a query is a sequence of rows; the stored always-on parameter is a flag of the control.
- What `mNotifier.perform` does beyond `Coverage.CheckIfInCoverage`: SMS and e-mail sending; logging, dates, DOM elements other than the four flags and the table cells.
- StatusMessage.SendStatus: takes the intervals as read; reading a row with a weekday outside 0 to 6 throws there too.
- StatusMessage.ParseMessage: says nothing of messages on which the page's loop does not end (`Coverage.EndlessNeverEnds`).
- Text.ParseInt: does not model white space or radix prefixes, which the printer never produces.
- The GPIO file and the sampling interval: `Debouncer.MonitorPins` takes the readings as a finite sequence.
- `ipv4_header.hpp`, the pinger's counters, `ServerManager` and the build files, which would only add easy members.
