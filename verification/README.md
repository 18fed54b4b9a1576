# USB redirector: a verified model of the message stream and its state machines

The USB redirector ships USB traffic from a sender to a receiver over TCP. This
project models the parts of it whose correctness spans several functions and
proves what they promise, for all inputs, all byte orders of the two hosts, all
chunkings of the stream and all interleavings of the threads.

| file | what it models |
|---|---|
| `Wrappers.dfy`, `Bytes.dfy` | small helpers; integer widths, host memory layout, `htonl`/`ntohl`/`htons`/`ntohs` |
| `Framing.dfy` | header, checksum, message printer, and the receive loop as a function |
| `StreamLaws.dfy` | laws of the receive loop on every byte string |
| `FrameStreams.dfy` | streams of frames, round trips, damage, resynchronisation |
| `Tears.dfy` | frames torn off in mid-stream: which of them the receiver gets over |
| `MessageHandler.dfy` | the handler as a class, with its loops, and the serializer |
| `TcpSocket.dfy`, `Wire.dfy` | the socket loops, and one writer and one receiver joined by a byte stream |
| `Clients.dfy` | several client threads that feed one handler |
| `Usbip.dfy`, `DeviceList.dfy`, `Urbs.dfy` | USB/IP structures converted in place, the device list, the URB pipeline |
| `CaptureQueue.dfy`, `Delivery.dfy`, `StopLiveness.dfy`, `UrbCapture.dfy` | the capture queue as a state machine of its threads, how long a delivery takes, when a stop returns, and the capture's methods |
| `Ports.dfy`, `Imports.dfy`, `VirtualDevices.dfy` | the port table, transactional imports, and the manager, device and receiver objects |
| `Descriptors.dfy` | the configuration descriptor walk |

Objects the source updates in place are classes; each of their methods is proved
against a function on values, and the main results are lemmas about these
functions, or about all runs of a state machine built from them.

What the model takes from outside: the byte order of each host, the outcomes of
`send` and `recv` (finite scripts), of the attach command and of loading the
kernel module (flags), the clock, and the content of fields the source leaves
uninitialised.

Where the code does less than its comments or names suggest, the model follows
the code:

- The search for the next magic (common/network/message_handler.cpp:53-56) looks
  for MESSAGE_MAGIC in the host's byte order, while the wire is big-endian. On a
  little-endian host it never finds a frame: `LittleEndianResync`,
  `LittleEndianStaysLost` and `GarbageThenFrames` say what happens instead.
- Splitting the stream is visible to the parser exactly when processing a chunk
  empties the buffer in such a search: `ChunkInvarianceExact`.
- The serializer does not check the payload size: `RoundTripExact` and
  `NewMessageRoundTrip` give the exact condition. Of a message that is too long the
  receiver drops the header only and reads the payload as a stream of frames:
  `OversizeIsReadAsStream` and `OversizeDeliversItsPayload`.
- A failed `Send` leaves the connection usable, and what it wrote stays on the
  wire. The receiver gets over such a tear, whatever frame follows and however the
  stream is cut, exactly on a big-endian host and when less than the magic was
  written (`SingleTearExact`; for tears behind tears, at most 16 bytes without the
  last byte of the magic: `TearExact`). `PrefixSafety` covers every run that writes
  nothing behind any other tear; `TornSendMixesMessages` is a run that does.
- IN URBs are sent as a 40-byte reply and parsed as a 48-byte command:
  `InUrbMisread`; exactly the OUT URBs that fit a message arrive with
  their data: `DataSurvivesExact`, `UrbArrivesExact`.
- Setup packets are copied in host byte order: `SetupCrossesHosts`.
- A fresh `UrbProcessor` is made for every URB (sender/main.cpp:201), so the
  USB/IP sequence number on the wire, and the `id` the receiver sees, is always 1.
- The sender's socket only listens, and listening does not set the connection
  flag, so `OnUrbCaptured` on it fails and writes nothing; the URB results are
  about a connected socket.
- `StopCapture` notifies without the queue's mutex, so its wakeup can be lost and
  the stop never return: `WakeupCanBeLost`. `StopReturnsExactly` says for every
  state of a waiting stop whether it is certain to return: it is, unless the
  consumer sleeps or is bound to and no producer under way is certain to wake it.
- `UsbReceiver::Stop` returns at once on a receiver that is not running, and then
  gives no port back, even if a start that failed had devices imported.

## Model

| member | source | states |
|---|---|---|
| `Bytes.NetworkOrder32` | common/protocol/usbip_protocol.cpp:112-126 | on a host of either byte order `htonl` puts the big-endian bytes into memory, `ntohl` reads them back, and the two undo each other |
| `Bytes.HostByteOrder` | common/protocol/usbip_protocol.cpp:112-126 | what the bytes in memory mean on each kind of host, written out |
| `Framing.ChecksumDetects` | common/network/message_handler.cpp:187-202 | for payloads up to 1 MiB two checksums collide exactly when the exact byte sums agree; no permutation is noticed, every one-byte change is |
| `Framing.ChecksumDoesNotWrap` | common/network/message_handler.cpp:187-193 | the 32-bit running sum of any payload up to 1 MiB is the exact sum of its bytes |
| `Framing.WireForm` | common/network/message_handler.cpp:87-111 | the bytes of a printed message, word by word |
| `MessageHandling.CalculateChecksum` | common/network/message_handler.cpp:187-193 | the loop computes the sum modulo 2^32, which is the exact sum up to 1 MiB |
| `MessageHandling.ValidateMessage` | common/network/message_handler.cpp:195-202 | true exactly when the header's checksum is that of the payload; an empty payload needs checksum 0 |
| `MessageHandling.SerializeMessage` | common/network/message_handler.cpp:87-111 | field-by-field conversion and copying yields magic, type, length and sequence number of the message as big-endian words at offsets 0, 4, 8 and 12, the sum of the payload at 16 and the payload behind it, on either kind of host |
| `MessageHandling.SequenceCounter.GetNextSequence` | common/network/message_handler.cpp:204-206 | returns the counter and increments it modulo 2^32 |
| `MessageHandling.SequenceCounter.CreateMessage` | common/network/message_handler.cpp:11-27 | a new message carries the magic, its type, its size modulo 2^32, the counter's value as sequence number, checksum 0 and the payload |
| `MessageHandling.Search` | common/network/message_handler.cpp:54-56 | stops at the first occurrence of the pattern at or after the start, or at the end |
| `MessageHandling.MessageHandler.ProcessReceivedData` | common/network/message_handler.cpp:33-85 | after any call on any bytes the state is that of the specified loop, the buffer is the unread end of everything received, waits for more and is under 20 bytes + 1 MiB, and every delivery so far is a genuine frame of the received stream, disjoint from the others and in order |
| `MessageHandling.MessageHandler.ProcessFront` | common/network/message_handler.cpp:40-84 | one iteration: waits, or resynchronises, or drops an oversize header or a bad frame, or delivers, exactly as the specified iteration does |
| `MessageHandling.MessageHandler.ProcessCompleteMessage` | common/network/message_handler.cpp:159-185 | hands the decoded header and its whole payload to the callback, once; fewer than 20 bytes are ignored |
| `StreamLaws.FeedAllSound` | common/network/message_handler.cpp:33-85 | over any number of calls on arbitrary bytes: deliveries are disjoint slices of the stream at increasing offsets, each with magic, length at most 1 MiB and a matching checksum; the buffer is the unread suffix |
| `StreamLaws.LoopQuiescent` | common/network/message_handler.cpp:40-84 | the loop ends with under 20 bytes or a proper prefix of one admissible frame, always below 20 bytes + 1 MiB |
| `StreamLaws.QuiescentIffUnchanged` | common/network/message_handler.cpp:40-75 | these buffers are exactly the ones the loop leaves as they are |
| `StreamLaws.ChunkInvarianceExact` | common/network/message_handler.cpp:33-85 | feeding a then b equals feeding a + b for every b if and only if processing a never empties the buffer in search of a magic |
| `StreamLaws.ChunkingWithoutClearing` | common/network/message_handler.cpp:33-85 | any chunking of any bytes in which no call empties the buffer gives the state their arrival in one piece gives |
| `StreamLaws.AnyChunking` | common/network/message_handler.cpp:33-85 | every split of a stream that never reaches the bad-magic branch gives the state its arrival in one piece gives |
| `FrameStreams.StreamUnderAnyChunking` | common/network/message_handler.cpp:65-84 | however a stream of well-framed frames and a part of one more is cut, exactly the frames with a valid checksum are delivered, at their offsets, and exactly the part is kept |
| `FrameStreams.RoundTripExact` | common/network/message_handler.cpp:87-111 | a serialized message comes back alone under every chunking, with its magic, type, length, sequence number and payload and the payload's sum, if and only if its header has the magic and its true size, at most 1 MiB |
| `FrameStreams.NewMessageRoundTrip` | common/network/message_handler.cpp:11-27 | a constructed message survives exactly when its payload is at most 1 MiB |
| `FrameStreams.MadeMessagesArrive` | common/network/message_handler.cpp:11-111 | from end to end: the k-th message made from a counter at n, printed, sent and cut arbitrarily, arrives with its type, its payload, its size, the exact sum of its bytes and sequence number n + k modulo 2^32, in order and with nothing else |
| `FrameStreams.OversizeIsReadAsStream` | common/network/message_handler.cpp:65-69 | of a message whose announced size exceeds 1 MiB exactly the header is dropped, and the loop goes on with its payload as if it were the stream, on either kind of host |
| `FrameStreams.OversizeDeliversItsPayload` | common/network/message_handler.cpp:65-84 | when that payload is a stream of frames and a part of one more, under every chunking exactly the intact ones of these are delivered, at their offsets, and the part is kept |
| `FrameStreams.OneByteCorrupted` | common/network/message_handler.cpp:71-83 | if one payload byte of one frame changes, then under every chunking all other messages are delivered unchanged and in order, that one is dropped, and nothing is left over |
| `FrameStreams.ResyncStep` | common/network/message_handler.cpp:51-63 | a bad magic makes the loop restart at the first later occurrence of the sought word, or empty the buffer, skipping no occurrence behind the first byte; on a big-endian host the sought word is the magic |
| `FrameStreams.LittleEndianResync` | common/network/message_handler.cpp:51-63 | on a little-endian host a call that meets a bad magic delivers nothing more and ends empty or with under 20 bytes that start with the reversed magic |
| `FrameStreams.LittleEndianStaysLost` | common/network/message_handler.cpp:51-63 | from there nothing is delivered, over any further chunks, until a call ends with an empty buffer |
| `FrameStreams.GarbageThenFrames` | common/network/message_handler.cpp:51-63 | garbage holding no magic, followed by good frames in one call: a big-endian host delivers all of them, a little-endian host none |
| `FrameStreams.GarbageThenFramesInChunks` | common/network/message_handler.cpp:40-63 | on a big-endian host, under any chunking, all frames behind the garbage are delivered if and only if no call with 20 or more bytes to search ends one to three bytes into the first frame, a condition on the chunk sizes alone |
| `Tears.TornStreamUnderAnyChunking` | common/network/message_handler.cpp:33-85 | however a stream of intact frames with harmless torn bytes between them, and a part of one more, is cut: exactly these messages are delivered, in order, and the buffer holds the incomplete rest but for harmless torn bytes |
| `Tears.TearExact` | common/network/message_handler.cpp:51-63 | behind torn bytes it could skip so far, the receiver gets over another tear, for every next frame and every chunking, if and only if all these bytes together are harmless: none, or, on a big-endian host, at most 16 without the last byte of the magic |
| `Tears.SingleTearExact` | common/network/message_handler.cpp:51-63 | a single tear costs no later frame if and only if the host is big-endian and fewer than four bytes were written |
| `Sockets.TransmitWritesPrefix` | common/network/tcp_socket.cpp:130-143 | whatever the kernel does, the bytes written are a prefix of the data, and success is reported exactly when they are all of it |
| `Sockets.TransmitExactly` | common/network/tcp_socket.cpp:130-143 | a send writes exactly as much as the kernel takes before its first error, going on after EAGAIN; it succeeds if that is everything, fails if the error comes first, and else is still trying |
| `Sockets.TcpSocket.Send` | common/network/tcp_socket.cpp:125-144 | on a connected socket the written stream grows by exactly what the kernel took; on any other nothing is written and the result is false |
| `Sockets.TcpSocket.Connect` | common/network/tcp_socket.cpp:26-64 | the connection flag becomes set exactly when no connection exists and both system calls succeed, and then the socket can send |
| `Sockets.TcpSocket.Listen` | common/network/tcp_socket.cpp:66-123 | sets the listening flag on success and leaves the connection flag alone |
| `Sockets.TcpSocket.ReceiveThread` | common/network/tcp_socket.cpp:180-203 | the handler receives exactly the bytes of all data outcomes before the one that ends the loop, EAGAIN or not in between; if they make up intact frames and nothing was buffered, exactly their messages are delivered; the connection flag is cleared |
| `Sockets.DataBytesAt` | common/network/tcp_socket.cpp:186-198 | the bytes of each data outcome stand, whole, directly behind those of the outcomes before it |
| `Wire.PrefixSafety` | common/network/tcp_socket.cpp:125-144 | in every state of every schedule, with any number of failed sends, that wrote nothing behind torn bytes that are not harmless: delivered are exactly the messages whose bytes all arrived, a prefix of those accepted; once all bytes arrived, exactly those whose send succeeded, and the buffer holds only what is torn or in progress |
| `Wire.EverythingCanArrive` | common/network/tcp_socket.cpp:180-203 | from every state, arrival of the rest in any portions of at most 8192 bytes is a run, and the receiver handles just these portions |
| `Wire.AcceptedAreDelivered` | common/network/tcp_socket.cpp:125-203 | after any such run in which nothing was written behind harmful torn bytes, exactly the messages whose send succeeded are delivered |
| `Wire.SoundAlways` | common/network/tcp_socket.cpp:180-203 | in every state of every schedule the receiver has delivered only genuine, disjoint frames of what arrived |
| `Wire.SendIsARun` | common/network/tcp_socket.cpp:130-143 | the send loop is a run of the system: same bytes, and its result says whether the message is accepted, refused or in progress |
| `Wire.SendFromIdle` | common/network/tcp_socket.cpp:125-144 | a whole call of send, on any well-framed message, can begin whenever none is under way, and is a run with that effect |
| `Wire.TornSendMixesMessages` | common/network/tcp_socket.cpp:132-140 | a witness of a harmful tear, for which `Tears.TearExact` is the general statement: the message whose send failed is delivered and the one whose send succeeded is lost |
| `Clients.ClientsMerge` | common/network/tcp_socket.cpp:229-247 | if every client's turn is whole frames, the callback gets an order-preserving merge of all clients' messages and the buffer is empty between turns, for any number of clients and any interleaving |
| `Clients.CutHarmlessExactly` | common/network/tcp_socket.cpp:229-247 | the condition is needed: a frame split between two calls comes through together with every intact frame of another client in between if and only if the cut lies on a frame boundary |
| `Clients.SplitFrameLosesBoth` | common/network/tcp_socket.cpp:229-247 | a witness in which neither of the two frames is delivered |
| `Usbip.CmdStruct.HostToNetwork` | common/protocol/usbip_protocol.cpp:128-136 | converting in place makes the memory image the wire form: ten big-endian words and the setup bytes untouched |
| `Usbip.CmdLayout` | common/protocol/usbip_protocol.h:37-45 | the offset of every field of a command on the wire |
| `Usbip.RetLayout` | common/protocol/usbip_protocol.h:48-55 | the offset of every field of a reply on the wire |
| `Usbip.CmdStruct.ParseCmdSubmit` | common/protocol/usbip_protocol.cpp:92-100 | fails below 48 bytes and changes nothing; otherwise fills the structure with the decoded command |
| `Usbip.RetStruct.HostToNetwork` | common/protocol/usbip_protocol.cpp:147-154 | converting in place makes the memory image the wire form of the reply |
| `Usbip.SerializeCmdSubmit` | common/protocol/usbip_protocol.cpp:50-64 | the wire form of the command followed by the data |
| `Usbip.SerializeRetSubmit` | common/protocol/usbip_protocol.cpp:66-80 | the wire form of the reply followed by the data |
| `Usbip.DecodeEncodeCmd` | common/protocol/usbip_protocol.cpp:92-145 | decoding a serialized command, whatever data follows, returns it |
| `Usbip.EncodeDecodeCmd` | common/protocol/usbip_protocol.cpp:92-145 | and serializing a decoded command returns the bytes it was read from |
| `Usbip.DecodeEncodeRet` | common/protocol/usbip_protocol.cpp:102-163 | decoding a serialized reply returns it |
| `Usbip.ReplyReadAsCommand` | receiver/usbip/usbip_client.cpp:277-281 | a reply parsed as a command: the status becomes the flags and the first eight data bytes the setup |
| `DeviceLists.SerializeDeviceList` | common/protocol/usbip_protocol.cpp:11-48 | the loop produces the header with the 32-bit count and every entry in wire form |
| `DeviceLists.ListLayout` | common/protocol/usbip_protocol.cpp:15-45 | op code 5, status 0 and the 32-bit count as words, then the entries of 312 bytes |
| `DeviceLists.InfoLayout` | common/protocol/usbip_protocol.h:58-73 | the offset of every field of an entry on the wire, the class byte at 306 |
| `DeviceLists.HandleDeviceListResponse` | receiver/usbip/usbip_client.cpp:199-247 | the loop returns the decodings of exactly the whole entries the count covers, on any payload |
| `DeviceLists.TruncatedList` | receiver/usbip/usbip_client.cpp:205-242 | parsing any truncation of at least 12 bytes returns the first min(count, (size - 12) / 312) devices |
| `DeviceLists.ListRoundTripExact` | common/protocol/usbip_protocol.cpp:11-48 | the list comes back exactly when its length fits the 32-bit count |
| `DeviceLists.ListThroughTheWire` | common/network/message_handler.cpp:117-120 | a list reaches the receiver, under every chunking, exactly when it has at most 3360 devices, and then it is the list sent |
| `DeviceLists.ParseListIsFaithful` | receiver/usbip/usbip_client.cpp:205-242 | on arbitrary bytes, encoding the result gives back the bytes read, and parsing stops only at the count or the last whole entry |
| `Urbs.UrbProcessor.CreateCmdSubmit` | sender/capture/urb_capture.cpp:239-262 | the command carries the next sequence number, direction, endpoint, flags, data size as a signed 32-bit value, and the setup bytes of a control URB only |
| `Urbs.UrbProcessor.CreateRetSubmit` | sender/capture/urb_capture.cpp:264-280 | the reply carries the next sequence number, direction, endpoint, status and actual length |
| `Urbs.OutPayload` | sender/capture/urb_capture.cpp:239-262 | every word of the payload of an OUT URB: 1, sequence number, 0, direction, endpoint, flags, size, zeros, the setup packet of a control URB byte by byte, and the data |
| `Urbs.InPayload` | sender/capture/urb_capture.cpp:264-280 | every word of the payload of any other URB: 3, sequence number, 0, direction, endpoint, status, actual length, zeros, and the data |
| `Urbs.UrbProcessor.ProcessUrb` | sender/capture/urb_capture.cpp:213-227 | an OUT URB becomes a command and any other a reply, each followed by the data |
| `Urbs.OnUrbCaptured` | sender/main.cpp:199-208 | sends the URB's message with USB/IP sequence number 1; on a socket that is not connected nothing is written |
| `Urbs.UrbMessageWire` | sender/main.cpp:199-208 | the bytes of the message a URB is sent as: magic, type 5, size, the counter's number, and the payload |
| `Urbs.HandleUrbSubmit` | receiver/usbip/usbip_client.cpp:268-317 | rebuilds a URB from the payload, or none below 48 bytes, with type by endpoint and data only if all of it is there |
| `Urbs.RebuildReadsOff` | receiver/usbip/usbip_client.cpp:268-317 | each field of the rebuilt URB as the bytes of an arbitrary payload say, by offset |
| `Urbs.OutUrbsRoundTrip` | sender/capture/urb_capture.cpp:213-262 | any list of OUT URBs of at most 1 MiB - 48 data bytes, converted, serialized, framed and cut into arbitrary chunks: one message a URB arrives, in order and nothing else, and each is rebuilt with the same data, flags, endpoint and direction, `actual_length` the data size, `id` 1, whatever clock value and stale setup field each call finds |
| `Urbs.OutUrbKindAndSetup` | receiver/usbip/usbip_client.cpp:290-296 | the type survives exactly for control on endpoint 0 and bulk elsewhere; the setup of a control URB exactly when the hosts agree on byte order or its words read the same both ways |
| `Urbs.SetupCrossesHosts` | sender/capture/urb_capture.cpp:254-259 | a setup packet copied as memory keeps its values exactly under that condition |
| `Urbs.InUrbMisread` | receiver/usbip/usbip_client.cpp:272-310 | what any IN URB turns into, in terms of its own fields: nothing below eight data bytes, else its status as flags, its first eight data bytes as setup, and its data eight bytes late, if enough is there |
| `Urbs.DataSurvivesExact` | receiver/usbip/usbip_client.cpp:298-307 | of all URBs exactly the OUT ones with less than 2^31 bytes come back with their data from the payload they are sent as; an IN URB with a true actual length comes back with none |
| `Urbs.UrbArrivesExact` | sender/capture/urb_capture.cpp:213-227 | from end to end, under every chunking of its message, the data of a URB reaches the URB callback if and only if it is an OUT URB of at most 1 MiB - 48 data bytes |
| `CaptureQueue.QueueConservation` | sender/capture/urb_capture.cpp:113-182 | in every interleaving of producers, consumer and repeated starts and stops: accepted = delivered, then at most one in flight, then queued; after a stop nothing is in flight |
| `Delivery.DrainDeliversAll` | sender/capture/urb_capture.cpp:151-166 | in every run a drain goes back to the loop exactly when the queue is empty and everything accepted has been delivered, and otherwise takes the first of the queue |
| `Delivery.NothingDropped` | sender/capture/urb_capture.cpp:172-182 | in every interleaving with starts and stops each URB is pushed or on its way exactly as often as it arrived while the capture ran |
| `Delivery.DeliveryIsBounded` | sender/capture/urb_capture.cpp:136-182 | while the capture runs there is a bound, linear in the queue and in what comes in meanwhile, on the thread steps of every interleaving, and at the bound every URB handed in before or during the run has been pushed and delivered |
| `Delivery.DeliveryCanProceed` | sender/capture/urb_capture.cpp:136-182 | and until everything is delivered some thread can take a step: no wakeup of the consumer is lost while the capture runs |
| `Delivery.HandedInIsDelivered` | sender/capture/urb_capture.cpp:136-182 | any free producer can hand in any URB while the capture runs, and the threads' own steps can bring it, with everything before it, to the callback |
| `Delivery.LeftoversAreDelivered` | sender/capture/urb_capture.cpp:62-85 | what a stop left in the queue is delivered after the next start, before anything that comes in later |
| `Delivery.RunningIsReached` | sender/capture/urb_capture.cpp:62-85 | this holds in every reachable state in which a start is complete and no stop has begun |
| `CaptureQueue.LockDiscipline` | sender/capture/urb_capture.cpp:136-182 | no two threads are in the queue's critical section, and a start never finds an old processing thread |
| `CaptureQueue.StatisticsMatchHistory` | sender/capture/urb_capture.cpp:125-134 | in every interleaving with resets each URB is counted once, just before its delivery, and the statistics shown are the tally of the URBs counted after the last reset of the schedule |
| `CaptureQueue.TallyTotals` | sender/capture/urb_capture.cpp:184-208 | the total is the number of URBs and the sum of the four type counters, bytes and errors are those of the URBs, modulo 2^64 |
| `CaptureQueue.TallyCounts` | sender/capture/urb_capture.cpp:184-208 | each of the seven counters is its exact count over the history, modulo 2^64 |
| `StopLiveness.StopReturnsExactly` | sender/capture/urb_capture.cpp:87-111 | a waiting stop returns after a bounded number of thread steps in every interleaving without spurious wakeups if and only if its wakeup is not lost: unless the consumer sleeps or is bound to and no producer's notification is certain to come after that |
| `StopLiveness.NotificationExact` | sender/capture/urb_capture.cpp:92-108 | seen from the notification: the stop returns if and only if it does not fall between the consumer's last check and its sleep, or a producer that passed the capture flag is still to push |
| `StopLiveness.WakeupCanBeLost` | sender/capture/urb_capture.cpp:139-149 | a schedule of one start and one stop that ends with the controller joining a sleeping consumer |
| `StopLiveness.DoomedStays` | sender/capture/urb_capture.cpp:103-108 | once the consumer of a waiting stop sleeps or is bound to, with no producer under way, every schedule without a spurious wakeup leaves it so |
| `StopLiveness.StopIsBounded` | sender/capture/urb_capture.cpp:87-111 | unless its wakeup is lost a stop waits for at most a bounded number of thread steps, in every interleaving, and the wakeup stays not lost |
| `StopLiveness.StopCanProceed` | sender/capture/urb_capture.cpp:87-111 | and as long as the consumer has not exited some thread can take a step |
| `StopLiveness.StopCompletes` | sender/capture/urb_capture.cpp:103-111 | a waiting stop whose wakeup is not lost can return by the threads' steps alone, to a state without thread and capture |
| `StopLiveness.SpuriousWakeupSaves` | sender/capture/urb_capture.cpp:142-145 | a spurious wakeup makes even a stop return whose own wakeup was lost |
| `UrbCapturing.UrbCapture.OnDeviceData` | sender/capture/urb_capture.cpp:172-182 | appends the URB to the queue exactly when the capture runs |
| `UrbCapturing.UrbCapture.UpdateStatistics` | sender/capture/urb_capture.cpp:184-208 | the statistics step whose meaning is the tally |
| `UrbCapturing.UrbCapture.Drain` | sender/capture/urb_capture.cpp:151-166 | although producers push whenever the lock is dropped, everything queued before and meanwhile is delivered in order and counted once, so that the statistics stay the tally of their history, and the queue ends empty |
| `Ports.TableAgrees` | receiver/virtual_device/virtual_usb_device.cpp:34-127 | after any run of create, attach, detach and destroy on any number of devices: a port is used exactly when one and only one created device holds it, attached implies created, created means a non-negative port, and as many ports are used as devices created |
| `Ports.RunsAgree` | receiver/virtual_device/virtual_usb_device.cpp:487-506 | so in every run that starts with a free table and no devices |
| `Ports.LifeCycle` | receiver/virtual_device/virtual_usb_device.cpp:34-127 | a new device is created exactly when a port is free, on the lowest; attaching does what the kernel does, detaching undoes it, destroying restores the table, and nothing takes effect twice |
| `Ports.FreePortsAscend` | receiver/virtual_device/virtual_usb_device.cpp:525-536 | the free ports are listed in strictly ascending order, all of them and nothing else |
| `Imports.ImportIsAllOrNothing` | receiver/main.cpp:208-243 | for every outcome of attach and send: failure restores table and list; success, exactly when both succeed and a port is free, appends one attached device on the lowest free port |
| `Imports.ImportListFillsLowest` | receiver/main.cpp:165-184 | of n importable mass-storage devices with k free ports exactly min(n, k) are appended, device i attached on the i-th lowest free port, in list order, whatever fails in between; the other ports stay free |
| `Imports.PayloadImportsExactly` | receiver/main.cpp:165-184 | from an arbitrary payload: of the whole entries the count covers, those whose byte at 12 + 312 i + 306 is 8 and for which attach and send succeed are imported, in order, on the lowest free ports, as far as ports are free; no other entry is |
| `Imports.ChosenEntriesAre` | receiver/main.cpp:177-180 | the entries chosen are exactly these, ascending |
| `Imports.ImportListKeepsAgreement` | receiver/main.cpp:165-184 | table and devices still agree after the loop |
| `VirtualDevices.UsbipManager.Initialize` | receiver/virtual_device/virtual_usb_device.cpp:487-506 | sizes the table to eight ports, the new ones free and the marks of the others kept; once initialized it changes nothing |
| `VirtualDevices.UsbipManager.Cleanup` | receiver/virtual_device/virtual_usb_device.cpp:508-523 | the manager is no longer initialized, and the table keeps its marks |
| `VirtualDevices.UsbipManager.GetAvailablePort` | receiver/virtual_device/virtual_usb_device.cpp:525-536 | the scan returns the lowest free port and marks it, or -1 and changes nothing |
| `VirtualDevices.UsbipManager.ReleasePort` | receiver/virtual_device/virtual_usb_device.cpp:538-544 | clears the mark of a port in range and nothing else |
| `VirtualDevices.VirtualUsbDevice.CreateDevice` | receiver/virtual_device/virtual_usb_device.cpp:34-61 | takes a port once; without a free port the device stays uncreated |
| `VirtualDevices.VirtualUsbDevice.AttachDevice` | receiver/virtual_device/virtual_usb_device.cpp:63-89 | attaches a created device exactly when the kernel does |
| `VirtualDevices.VirtualUsbDevice.DetachDevice` | receiver/virtual_device/virtual_usb_device.cpp:91-110 | clears the attachment and nothing else |
| `VirtualDevices.VirtualUsbDevice.DestroyDevice` | receiver/virtual_device/virtual_usb_device.cpp:112-127 | detaches and gives the port back once |
| `VirtualDevices.UsbReceiver.ImportDeviceInternal` | receiver/main.cpp:208-243 | on the objects themselves: the new state is that of the specified import, and device list and table agree |
| `VirtualDevices.UsbReceiver.OnDeviceListReceived` | receiver/main.cpp:165-184 | the loop is the specified import of the whole list |
| `VirtualDevices.UsbReceiver.OnDeviceListMessage` | receiver/usbip/usbip_client.cpp:199-247 | parsing a payload and the import loop composed |
| `VirtualDevices.UsbReceiver.Start` | receiver/main.cpp:47-78 | runs exactly when it ran before or both connecting and requesting the list succeed |
| `VirtualDevices.UsbReceiver.Stop` | receiver/main.cpp:80-101 | a running receiver ends with no devices and no port in use; on one that is not running nothing changes |
| `Descriptors.MassStorageDevice.FindEndpoints` | sender/usb/mass_storage_device.cpp:104-161 | on any bytes the walk terminates in bounds and visits exactly the segments, in order; true exactly for a non-empty descriptor and a usable result |
| `Descriptors.SegmentsTile` | sender/usb/mass_storage_device.cpp:114-123 | the segments tile the buffer from its start, each as long as its first byte says, up to where no descriptor follows |
| `Descriptors.SegmentsAreLongest` | sender/usb/mass_storage_device.cpp:114-123 | any well-formed descriptors the buffer starts with are its first segments |
| `Descriptors.SegmentsOfConcat` | sender/usb/mass_storage_device.cpp:114-158 | a concatenation of well-formed descriptors is cut into exactly these |
| `Descriptors.FoldMeaning` | sender/usb/mass_storage_device.cpp:125-155 | from the constructor's state: the last mass-storage interface's number, and for each direction the last bulk endpoint behind the first such interface |
| `Descriptors.PrintedConfigurationIsRead` | sender/usb/mass_storage_device.cpp:104-158 | printing any list of descriptors byte by byte and walking over the bytes finds what the descriptors say: interface numbers of class 8, address, packet size and direction of bulk endpoints |
| `Descriptors.EveryDescriptorIsPrinted` | sender/usb/mass_storage_device.cpp:114-123 | and every well-formed descriptor is printed so |
| `Descriptors.WalkSucceedsExactly` | sender/usb/mass_storage_device.cpp:160-160 | true exactly when a bulk IN endpoint lies behind a mass-storage interface and the last bulk OUT endpoint behind one has a non-zero address |

## Left out

- Real sockets, addresses, sleeps and `errno`: only partial sends, chunked receives, retries and failures are kept. `HandleClient` hands chunks over as `ReceiveThread` does; its client list is not modelled.
- Wire.PrefixSafety: the writer sends only messages with the magic and their true length of at most 1 MiB; `RoundTripExact` shows that no other message survives even alone.
- Several writers on one socket (the heartbeat thread beside the main thread): they would interleave in mid-frame, so the wire has one writer.
- A handler without a message callback, and callbacks that call back into the handler.
- Concurrent use of the static sequence counter.
- `UsbipManager::CreateVirtualDevice` and `RemoveVirtualDevice`: they lock their own mutex again; the receiver does not use them.
- libusb, sysfs paths, shell commands and the vhci kernel module: replaced by outcome flags; the configuration descriptor is arbitrary bytes.
- Heartbeats and the connection flags of `UsbipClient`: driven by timing.
- Canned replies of the virtual device, the stub URB messages, `ReverseClient`, `TcpServer` and the SCSI handlers declared without a body: one-branch facts.
- `AddDevice`, `RemoveDevice` and the device list of the capture: they do not touch the queue.
- Logging, `Buffer`, configuration and command lines.
- Sockets.TcpSocket.Send: a call that outlives the script of the kernel is reported as pending; that `send` retries forever on EAGAIN is not modelled further.
- Descriptors.SegmentsAreLongest: speaks of descriptors of at least two bytes, because the walk also skips, without looking at them, one-byte ones that another byte follows.
