# xKBEngine event loop: verified model

A Dafny model of the event-driven core of the xKBEngine game server, and proofs about it:

* **Timers** (`TimerSchedule`, `Timers`): the timer queue with lazy cancellation. `TimerSchedule` is the
  state machine of one pass over the queue, with arbitrary handlers; `Timers` is the timer and queue objects.
* **Poller** (`Interest`, `EventPoller`): two handler maps and the kernel's epoll table, edited only through
  ADD, MOD and DEL, with a kernel that may refuse any request.
* **Sending and receiving** (`SendQueue`, `SenderRuns`, `SendOutcome`, `ReceiveWindow`, `Packets`, `Channels`): the packet queue
  pushed through a socket that takes any part of a packet, the receive window filled from it, the byte and
  message limits, condemnation, and the interplay with the poller.
* **Messages** (`Framing`, `Reassembly`, `Interruption`, `PacketReader`, `Codec`): the length-prefixed messages on
  the byte stream, their reassembly from packets, what happens when a handler destroys the channel whose messages it
  is handed, and the fixed-width fields inside them.
* **Connection** (`Connection`): one direction of a connection end to end, from `Channel::send` to the message
  handler. The link delivers bytes in order and without loss, the service of section 2.2 of RFC 9293.
* **Dispatcher** (`Turns`, `Waiting`, `DispatcherRuns`, `EventDispatcher`): the phases of a turn, the waiting time,
  and whole runs of the loop with what they do to tasks, timers and poller.
* **Tasks, channel table, addresses** (`Tasks`, `ChannelTable`, `NetworkInterface`, `Addresses`).

The objects of the source are classes here, updated in place; each method is tied to a function or state machine
on values, and the theorems are about those, over every run. The environment is never assumed to behave: kernel
replies (`SendReply`, `RecvReply`, refusals), clock readings and task answers are parameters, and handlers are
either left open (the timer handlers) or arbitrary scripts (the poller callbacks, the packet handlers).
`Arithmetic`, `Bytes` and `Wrappers` hold shared helpers.

What an operation answers is stated twice: by the function its method is tied to, and by a lemma that gives the same
answer for all inputs from the inputs alone, without that function (for instance `SendOutcome.ProcessSendExact`,
`Interest.HandlerIff`, `Waiting.WaitIs`, `ReceiveWindow.DrainExact`, `ChannelTable.PassLeaves`, `Addresses.PrintsBytes`).

## What the proofs found

Where the code falls short of what one would expect of it, the model keeps the code as it is and proves when it
does meet the expectation:

* A packet boundary between the two bytes of a message's length field makes the handler lose the first two bytes
  of that message (the read position is not reset after the length is read back); an instance is `CutLengthField`.
  Right behind an empty message the first of the two bytes is lost as well and read back as zero. Both together are
  the whole of what can go wrong: for every stream and every division into packets the handler gets the messages of
  the stream as read, beheaded exactly where cut (`StreamExact`), and reassembly is right exactly when the stream as
  read means the same and no complete message with a body was cut (`ReassemblyRightIff`). The stream is read as it is
  exactly when the bytes left over behind empty messages are zero (`ReadAsIsIff`); any other such byte
  desynchronises the reader (`Desynchronises`), which can even invent a message (`CutAfterEmptyMessage`).
* 64-bit integers are written through a 32-bit variable; a list of fields reads back exactly when it has none
  (`RoundTripIff`).
* The distance to the next timer is counted in nanoseconds, narrowed to `int`, and used as milliseconds. For every
  limit and every distance the timeout is in time exactly when bit 31 of the distance is clear and the limit, or the
  low 32 bits of the distance, fits the distance as milliseconds (`InTimeIff`, for whole queues `NeverSleepsPastIff`
  and for every turn of a run `RunOfWaits`); failing inputs are in `Oversleeps`. When bit 31 is set the loop waits
  without limit (`CountNeverExceeds`).
* The result of registering for output is ignored: one failed registration and the channel never writes again
  (`StrandedForever`). A send strands its data exactly when the flush leaves some and the kernel refuses, or its entry
  for the descriptor is out of step with the read handler (`StrandedIff`, `StrandedByStaleEntry`). While the kernel
  grants every request no data is stranded (`NoStrandedData`).
* Removing a handler while the kernel refuses leaves a stale entry that blocks every later registration of the
  descriptor (`AgreementKeptExactly`, `StaleBlocksRegistration`). Over whole runs a descriptor ends in agreement
  exactly when no such removal is left without a later successful call (`RunAgreesIff`).
* A handler that destroys the channel whose message it was handed makes the reader follow the endpoint that is gone,
  unless the message ended its packet; then the packets behind are dropped and the program goes on (`FateIff`, over
  whole connections `ReceiverStopsIff`).
* A destroyed channel still in the table stops the program at the next pass: deregistering asserts on its endpoint,
  which it has given up. A pass completes exactly when no channel is destroyed by the time it is visited, and none
  that it processes is destroyed by its own handlers in the middle of a packet (`CompletesIff`, whose condition is
  computed from the table before the pass). Destroying it again, as `deregisterAllChannels` does, follows the missing
  endpoint (`NetworkInterface.DeregisterAllChannels`). While nobody destroys a registered channel no run stops
  (`NeverStops`).
* An event reported by the kernel is lost exactly when an earlier callback of the same batch has removed the handler
  and none has installed one since (`DispatchLosesNothing`).
* `setWaitBreakProcessing` is forgotten by the next turn (`WaitingIsForgotten`).
* With the default limit 256 bytes in one tick condemn the receiving channel: it survives a drain of everything in
  flight exactly when there are fewer (`DefaultSurvivesIff`; `SurvivesIff` for all limits and replies).

## Model

| member | source | states |
|---|---|---|
| `TimerSchedule.FiringOrder` | libs/dispatcher/timers.cpp:16-42 | within one pass the scheduled times of the handler calls never decrease and never exceed now, whatever handlers cancel or add |
| `TimerSchedule.DeadNeverFires` | libs/dispatcher/timers.cpp:26-38 | a cancelled or retired timer never fires again in the pass and stays dead |
| `TimerSchedule.NoFireAfterCancel` | libs/dispatcher/timers.cpp:26-38 | a timer cancelled by some handler call, be it queued, executing or just added, does not fire at any later step of the pass |
| `TimerSchedule.CatchUpExact` | libs/dispatcher/timers.cpp:16-42 | in a pass that runs until quiet, a live timer that nobody cancels fires exactly at t, t+d, ..., floor((now-t)/d)+1 times (once if one-shot), and is left at the first t+k*d after now, or gone, independently of all other timers |
| `TimerSchedule.SettledAfterNow` | libs/dispatcher/timers.cpp:29-35 | the closed-form time a repeating timer is left at is after now, and one interval less is not |
| `TimerSchedule.CatchUpPrefix` | libs/dispatcher/timers.cpp:16-42 | a timer that is cancelled part-way, or a pass cut short, fires an initial part of that schedule |
| `TimerSchedule.QueueProvenance` | libs/dispatcher/timers.cpp:23-35 | whatever a pass leaves queued was queued before or was added by a handler; a cancelled timer is left as it was |
| `TimerSchedule.AddedIsQueued` | libs/dispatcher/timers.cpp:67-72 | every timer that a handler adds is in the queue after the pass, with the data it was added with, unless a handler cancels it |
| `TimerSchedule.NotPopped` | libs/dispatcher/timers.cpp:23-38 | a timer that never came to the top is still queued at its time, and cancelled exactly when it was before or some handler cancelled it |
| `TimerSchedule.StepOn` | libs/dispatcher/timers.cpp:23-38 | one iteration, timer by timer: which timers go, which move on and by how much, and which stay as they are |
| `TimerSchedule.StepMeasure` | libs/dispatcher/timers.cpp:19-39 | every iteration purges (same due work, smaller queue) or fires (strictly less due work, exactly one less when nothing is cancelled), which is why the pass terminates |
| `TimerSchedule.FiringBound` | libs/dispatcher/timers.cpp:18-41 | no pass fires more often than the due work it began with; without cancellations firings and remaining work add up to it |
| `TimerSchedule.PassOutcome` | libs/dispatcher/timers.cpp:16-42 | the whole outcome of a pass with passive handlers: every timer's firings, the final queue, and the returned count as the sum of the closed forms |
| `TimerSchedule.QuietOwesNothing` | libs/dispatcher/timers.cpp:19-21 | when the loop stops no live timer is due: every queued timer lies after now |
| `TimerSchedule.SchedulesJoin` | libs/dispatcher/timers.cpp:16-42 | what is due at one reading, and then at another from where the first left the timer, is what is due at the later one; so is where the timer is left |
| `TimerSchedule.SpacingIrrelevant` | libs/dispatcher/event_dispatcher.cpp:165-168 | over any number of passes a live timer that nobody cancels fires exactly on its schedule up to the latest clock reading, however the readings are spaced and whatever happens to other timers in and between the passes |
| `Timers.Timer.Cancel` | libs/dispatcher/timers.cpp:60-63 | `Timer::cancel`: cancelling sets the state and leaves time and interval; it is idempotent |
| `Timers.Timer.TriggerTimer` | libs/dispatcher/timers.cpp:26-35 | `Timer::triggerTimer`: runs the handler, then retires a one-shot, or a timer its handler cancelled, without moving its time, and advances a repeating one by its interval |
| `Timers.TimerQueue.ProcessTop` | libs/dispatcher/timers.cpp:23-38 | one iteration is one step of the state machine, for any handler |
| `Timers.TimerQueue.Process` | libs/dispatcher/timers.cpp:16-42 | the loop terminates, performs a run of the state machine until the queue is quiet, and returns the number of handler calls in it |
| `Timers.TimerQueue.NextExp` | libs/dispatcher/timers.cpp:44-52 | zero for an empty queue or an overdue top, otherwise the distance to a timer of least time |
| `Timers.TimerQueue.Clear` | libs/dispatcher/timers.cpp:54-65 | empties the queue and leaves every timer that was in it cancelled at its old time |
| `Timers.TimerQueue.Add` | libs/dispatcher/timers.cpp:67-72 | queues a new, live timer with the given time and interval and changes nothing else |
| `Interest.SuccessResynchronises` | libs/network/event_poller.cpp:111-164 | from any state whatever, a call that returns true leaves the kernel entry of its descriptor in exact agreement with the handlers |
| `Interest.AgreementKeptExactly` | libs/network/event_poller.cpp:29-39 | agreement of kernel and handlers survives a call if and only if the call is not a refused removal of an installed handler |
| `Interest.RunAgrees` | libs/network/event_poller.cpp:93-109 | over every run in which the kernel refuses registrations only, each descriptor has IN exactly for a read handler, OUT exactly for a write handler, and no entry for neither |
| `Interest.RunAgreesIff` | libs/network/event_poller.cpp:29-39 | over every run with arbitrary refusals from a covered descriptor: it ends in agreement if and only if every refused removal of an installed handler of it is followed by a successful call for it, and it agreed at the start or some call for it succeeded |
| `Interest.RunCovered` | libs/network/event_poller.cpp:29-39 | under arbitrary refusals every run keeps each installed handler's event in the kernel mask of its descriptor |
| `Interest.HandlerIff` | libs/network/event_poller.cpp:93-109 | after any run of calls, with any refusals, the handler of a descriptor and direction is `h` if and only if the last granted registration for it passed `h`, or it was there at the start with none granted since, and nothing removed it afterwards |
| `Interest.Answers` | libs/network/event_poller.cpp:93-109 | what each call returns in an agreeing state; a lone handler cannot be replaced by registering again |
| `Interest.AnswersIff` | libs/network/event_poller.cpp:111-164 | what each call returns in any state whatever: a registration succeeds exactly when it is not refused and the entry is there exactly when the opposite handler is, a removal exactly when it is not refused and there is an entry |
| `Interest.StaleBlocksRegistration` | libs/network/event_poller.cpp:121-133 | a kernel entry without handlers makes every later registration of that descriptor fail until it is deregistered again, over every run |
| `Interest.RefusedRemovalIsStale` | libs/network/event_poller.cpp:135-161 | a refused removal of the only handler produces such an entry |
| `Interest.DispatchKeepsCovered` | libs/network/event_poller.cpp:70-88 | coverage survives a batch of events whatever the callbacks register and deregister |
| `Interest.DispatchLosesNothing` | libs/network/event_poller.cpp:70-88 | over every batch and every script of callbacks, each event calls a handler if and only if it is the one that the last granted registration before it passed, or that was there at the start, and no callback removed it since; an error calls the reader or else the writer; each is called once, for input before output |
| `Interest.QuietBatch` | libs/network/event_poller.cpp:70-88 | the whole log of a batch of truthful events in an agreeing state, in source order, when callbacks leave the poller alone |
| `Interest.NoCallbackAfterRemoval` | libs/network/event_poller.cpp:172-198 | a descriptor whose handlers are gone gets no further callback in the batch |
| `EventPoller.Epoll.Ctl` | libs/network/event_poller.cpp:135-161 | the contract of the kernel call: ADD fails on a present, MOD and DEL on an absent descriptor, and a failure changes nothing |
| `EventPoller.EventPoller.DoRegister` | libs/network/event_poller.cpp:111-164 | chooses operation and mask from the opposite map and edits the kernel table only |
| `EventPoller.EventPoller.RegisterForRead` | libs/network/event_poller.cpp:93-100 | installs the given handler only after the kernel agreed, and changes nothing otherwise |
| `EventPoller.EventPoller.RegisterForWrite` | libs/network/event_poller.cpp:102-109 | installs the given handler only after the kernel agreed, and changes nothing otherwise |
| `EventPoller.EventPoller.DeregisterForRead` | libs/network/event_poller.cpp:29-33 | erases the handler first, whatever the kernel answers |
| `EventPoller.EventPoller.DeregisterForWrite` | libs/network/event_poller.cpp:35-39 | erases the handler first, whatever the kernel answers |
| `EventPoller.EventPoller.TriggerError` | libs/network/event_poller.cpp:200-208 | calls the read handler, or else the write handler, and tells whether there was one |
| `EventPoller.EventPoller.ProcessPendingEvents` | libs/network/event_poller.cpp:61-91 | dispatches the reported batch in order, with callbacks that edit the poller meanwhile, and returns the batch size or -1 |
| `SendQueue.FlushConserves` | libs/network/tcp_packet_sender.cpp:25-60 | for every pattern of full, partial and failed writes: the bytes written followed by the unsent bytes of the queue are what was unsent before |
| `SendQueue.FlushEnds` | libs/network/tcp_packet_sender.cpp:27-55 | only the head stays partly sent; success empties the queue and nothing else does; an unfinished flush leaves an incomplete head unless the channel was condemned; a condemned channel writes nothing |
| `SendQueue.FlushOne` | libs/network/tcp_packet_sender.cpp:63-94 | one packet: the flush ends there with the packet at the head, or goes on with the others |
| `SendQueue.PayloadIsUnreadIff` | libs/network/endpoint.cpp:146 | sending takes the bytes from position 0; for all contents these are the unread bytes exactly when nothing was read from the packet before |
| `SenderRuns.ProcessSendMeets` | libs/network/tcp_packet_sender.cpp:20-61 | one call on an uncondemned channel conserves bytes, returns true exactly when nothing is left, and otherwise leaves an incomplete head or condemns; the failure count is reset or grows by one |
| `SendOutcome.ProcessSendExact` | libs/network/tcp_packet_sender.cpp:20-94 | for all channels, replies and limits: which packet was offered last, how many bytes were written, what is left of the queue, the count of the tick, the answer, and whether the channel is condemned, told from the queue, the replies and the limits |
| `SendOutcome.CondemnsIff` | libs/network/tcp_packet_sender.cpp:35-94 | an attempt condemns if and only if, at some packet it gets to, the 32-bit count of the tick reaches the byte limit, or the packet is not finished and its write took nothing for a reason other than EAGAIN, or is not finished in the tenth unfinished attempt in a row |
| `SendOutcome.SendCondemnsIff` | libs/network/tcp_packet_sender.cpp:20-61 | `Channel::send`: condemns a live channel if and only if the packets queued exceed both message limits, or their bytes reach the byte limit, or no handler waits and the attempt is fatal; a closed channel only drops its queue |
| `SendOutcome.DefaultWindow` | libs/network/tcp_packet_sender.cpp:20-61 | `Channel::send`: with the default limits the window overflows with more than 65535 packets or with 65535 bytes |
| `SendOutcome.TickRestarts` | libs/network/tcp_packet_sender.cpp:70-72 | `Channel::onPacketSent`: over every run the count of the tick is what was written since the tick began, on 32 bits |
| `SenderRuns.WritableMeets` | libs/network/tcp_packet_sender.cpp:57-60 | in every reachable state the assertion made when a flush completes holds: nothing queued, and the channel sending |
| `SenderRuns.RunKeepsInv` | libs/network/tcp_packet_sender.cpp:20-61 | the invariant of every run: conservation, queue shape, failure count equal to attempts since the last complete flush and below ten, and sending exactly while data waits; the wire only grows |
| `SenderRuns.SenderSafety` | libs/network/tcp_packet_sender.cpp:35-55 | from a new channel: what is on the wire is a prefix of what was enqueued, equality with the queue while the channel lives, and at most nine unfinished attempts in a row while it is uncondemned |
| `SenderRuns.ClosedIsSilent` | libs/network/tcp_packet_sender.cpp:22-23 | after condemnation or destruction no run writes or accepts another byte |
| `SenderRuns.NoStrandedData` | libs/network/event_poller.cpp:102-109 | `Channel::send` and the poller: while the kernel grants every request, a live channel with data left has its own write handler installed and OUT in the kernel mask, in every reachable state |
| `SenderRuns.DestroyUninstalls` | libs/network/network_interface.cpp:41-48 | `Channel::destroy`: takes both handlers of the channel from the poller, whatever the kernel answers, and drops the queue and the flags |
| `SenderRuns.StaysUninstalled` | libs/network/network_interface.cpp:41-48 | `Channel::destroy`: nothing of a destroyed channel is installed again in any run |
| `SenderRuns.StrandedForever` | libs/network/event_poller.cpp:186-198 | `Channel::send` and the poller: a channel marked sending without a handler writes nothing more in any run |
| `SenderRuns.StrandedIff` | libs/network/event_poller.cpp:102-109 | `Channel::send`: in every reachable state, agreeing with the kernel or not, a send strands its data if and only if the flush of the enlarged queue neither completes nor condemns and the registration is refused or finds an entry that does not match the read handler |
| `SenderRuns.StrandedByStaleEntry` | libs/network/event_poller.cpp:135-161 | a run in which no registration is refused, and yet the second send is stranded, because a removal was |
| `Channels.EndPoint.Send` | libs/network/endpoint.cpp:144-152 | advances the packet by exactly what the kernel took, and puts those bytes on the wire |
| `Channels.TCPPacketSender.DoSend` | libs/network/tcp_packet_sender.cpp:63-94 | one write with its accounting, condemnation by the byte limit, and the reason returned: success when the packet is complete, a full resource after a partial write or on EAGAIN, and otherwise as errno says |
| `Channels.TCPPacketSender.FlushBundles` | libs/network/tcp_packet_sender.cpp:25-42 | the indexed loop and the erase or clear after it are the flush of the whole queue |
| `Channels.TCPPacketSender.Settle` | libs/network/tcp_packet_sender.cpp:35-55 | resets or increments the 8-bit failure count and condemns at ten, or at once for other failures |
| `Channels.TCPPacketSender.ProcessSend` | libs/network/tcp_packet_sender.cpp:20-61 | the whole call, including deregistering the write handler when the poller's flush completes |
| `Channels.Channel.Send` | libs/network/message_handler.h:18-20 | `Channel::send`: queues, checks the window, flushes unless a handler waits, and registers for output when data stays |
| `Channels.Channel.HandleOutputNotification` | libs/network/packet_sender.cpp:15-19 | the poller's callback is the writable step of the run |
| `Channels.Channel.OnPacketSent` | libs/network/tcp_packet_sender.cpp:70-72 | `Channel::onPacketSent`: counts the bytes of the tick on 32 bits and condemns when the limit is reached |
| `Channels.Channel.StopSend` | libs/network/tcp_packet_sender.cpp:57-58 | `Channel::stopSend`: clears the flag and deregisters, only if sending |
| `Channels.Channel.Destroy` | libs/network/network_interface.cpp:43-46 | `Channel::destroy`: deregisters both directions, drops both queues and gives up the endpoint, once; reports a second call, where the source follows the missing endpoint |
| `ReceiveWindow.DrainConserves` | libs/network/packet_receiver.cpp:19-27 | a drain appends packets of 1 to 1460 bytes whose concatenation is exactly the bytes taken from the pipe, and leaves the earlier window alone; it ends on every input |
| `ReceiveWindow.DrainCondemns` | libs/network/tcp_packet_receiver.cpp:18-48 | the channel is uncondemned afterwards if and only if the drain stopped because nothing was left to read; a condemned channel takes nothing |
| `ReceiveWindow.DrainExact` | libs/network/tcp_packet_receiver.cpp:18-48 | a drain takes exactly the packets on offer up to the first that is over a limit, with it, each of the size on offer, and counts their bytes on 32 bits |
| `ReceiveWindow.FullPackets` | libs/network/tcp_packet_receiver.cpp:23-24 | one call takes up to 1460 bytes |
| `ReceiveWindow.SurvivesIff` | libs/network/tcp_packet_receiver.cpp:18-48 | for all replies and all limits: the channel is uncondemned after a drain if and only if it was before, the packets on offer stay within both limits one by one (bytes counted on 32 bits), and the socket ends without failure or close |
| `ReceiveWindow.DefaultSurvivesIff` | libs/network/tcp_packet_receiver.cpp:44-45 | under the default limits, with everything in flight ready: if and only if the bytes of the tick and those in flight are fewer than 256 together, and the window stays within 65535 packets |
| `Channels.EndPoint.Recv` | libs/network/endpoint.cpp:118-127 | appends to what the buffer holds as much as the kernel delivered and the room allows, and removes it from the pipe; -1 and 0 change nothing |
| `Channels.Channel.TakeIn` | libs/network/tcp_packet_receiver.cpp:44-45 | `Channel::onPacketReceived` and `addReceiveWindow`: accounts for the packet and appends it to the window, condemning by either limit |
| `Channels.TCPPacketReceiver.ProcessRecv` | libs/network/tcp_packet_receiver.cpp:18-48 | one step of the drain, or its end |
| `Channels.TCPPacketReceiver.HandleInputNotification` | libs/network/packet_receiver.cpp:19-27 | the loop over processRecv is the whole drain, and terminates |
| `Channels.Channel.ProcessPackets` | libs/network/network_interface.cpp:162-167 | `Channel::processPackets`: resets the tick, and on an open channel hands the waiting packets to the reader in order, up to a message whose handler destroys the channel, and empties the window; tells whether the reader was in the middle of a packet then |
| `Framing.ParseFrames` | test/network/tcp_server_demo/client.cpp:34-38 | the message format of `PacketReader::processMessages`: what a sender frames is what the stream means, followed by any incomplete message |
| `Framing.ParseExact` | test/network/tcp_server_demo/client.cpp:34-38 | the message format of `PacketReader::processMessages`: the meaning of a stream neither loses nor invents bytes |
| `Framing.RestIncomplete` | test/network/tcp_server_demo/client.cpp:34-38 | the message format of `PacketReader::processMessages`: what is left over is shorter than the message its two length bytes announce, so every complete message has been taken |
| `Framing.ParseAppend` | test/network/tcp_server_demo/client.cpp:34-38 | the message format of `PacketReader::processMessages`: a stream may be taken piecewise, carrying the unfinished rest over |
| `Reassembly.FeedExact` | test/network/tcp_server_demo/server.cpp:32-37 | `PacketReader::processMessages`: one packet against the stream, from any state of the reader: the messages it completes, except that the one in progress loses two bytes if its length field was cut, the bytes kept for later, and the buffer size |
| `Reassembly.StreamExact` | test/network/tcp_server_demo/server.cpp:32-37 | `PacketReader::processMessages`: for every stream and every division into packets, one message handed over for each message of the stream as read, beheaded exactly where the length field was cut |
| `Reassembly.ReadAsIsIff` | test/network/tcp_server_demo/server.cpp:32-37 | `PacketReader::writeFragmentMessage`: the stream is read as it is if and only if every byte left over right behind an empty message is zero |
| `Reassembly.Desynchronises` | test/network/tcp_server_demo/server.cpp:32-37 | `PacketReader::writeFragmentMessage`: otherwise, once the misread message or what it is taken for is complete, what is handed over is not what the stream means |
| `Reassembly.CutsAloneMatter` | test/network/tcp_server_demo/server.cpp:32-37 | `PacketReader::processMessages`: with those bytes zero, the messages handed over are those of the stream if and only if no complete message with a body had its length field cut |
| `Reassembly.ReassemblyRightIff` | test/network/tcp_server_demo/server.cpp:32-37 | `PacketReader::processMessages`: for every stream and division, the messages handed over are those of the stream if and only if the stream as read means the same and no complete message with a body had its length field cut |
| `Reassembly.ReassemblyRight` | test/network/tcp_server_demo/server.cpp:32-37 | `PacketReader::processMessages`: with no length field cut the division into packets does not matter, empty bodies included |
| `Reassembly.CutLengthField` | test/network/tcp_server_demo/server.cpp:32-37 | `PacketReader::processMessages`: an instance of the loss: a three-byte body arrives as one byte |
| `Reassembly.CutAfterEmptyMessage` | test/network/tcp_server_demo/server.cpp:32-37 | `PacketReader::processMessages`: after an empty message a cut length field is misread and a message nobody sent is handed over |
| `PacketReader.PacketReader.ProcessMessages` | test/network/tcp_server_demo/server.cpp:32-37 | `PacketReader::processMessages`: reads the packet to its end, or to the message whose handler destroys the channel; state, messages handed over and bytes left are those of the reading function |
| `Interruption.FeedUntilIs` | test/network/tcp_server_demo/server.cpp:32-37 | `PacketReader::processMessages`: a reading that stops at a message hands over the messages of the undisturbed one up to it, leaves the rest of the packet, and leaves nothing if and only if that message is the last of the packet and no other has begun |
| `Interruption.ReadWindowIs` | libs/network/network_interface.cpp:162-167 | `Channel::processPackets`: the same for a whole window; the bytes read and the bytes dropped are together the window |
| `Interruption.FateIff` | libs/network/network_interface.cpp:162-167 | `Channel::processPackets`: the handler of a given message destroys its channel if and only if the stream as read gets to that message, and the reader then follows the missing endpoint if and only if the message ends no packet |
| `Codec.RoundTripIff` | test/common/memorystream.cpp:30-38 | `MemoryStream::operator<<` and `operator>>`: a list of fixed-width fields reads back as written if and only if it has no 64-bit integer; with one, reading throws |
| `Codec.DecodeEncode` | test/common/memorystream.cpp:30-38 | `MemoryStream::operator<<` and `operator>>`: every other list of fields reads back, and reading stops right behind it |
| `Codec.WriteIs` | test/common/memorystream.cpp:30-38 | `MemoryStream::operator<<`: every byte a field puts in the stream, from the most significant one down, in two's complement if negative, and of a 64-bit integer the upper four |
| `Codec.ReadIs` | test/common/memorystream.cpp:30-38 | `MemoryStream::operator>>`: throws exactly when there are too few bytes, and otherwise gives the one value of the field whose bytes these are and leaves those behind |
| `Codec.ReadsTrue` | test/common/memorystream.cpp:30-38 | `MemoryStream::operator>>`: a truth value is true exactly when its byte is one |
| `Codec.LengthFieldIsU16` | test/network/tcp_server_demo/client.cpp:35-38 | `MemoryStream::operator<<` and `operator>>`: a written 16-bit size that counts itself is the header the reader expects |
| `Connection.StreamConserved` | libs/network/tcp_packet_sender.cpp:20-61 | over every run of both ends: consumed, discarded, waiting, in-flight and unsent bytes are together exactly what was enqueued while the sender lives; what is received is a prefix of it in any case |
| `Connection.AllReceived` | libs/network/packet_receiver.cpp:19-27 | a drain that finds everything ready and leaves the receiver uncondemned empties the pipe into the window, behind what was waiting |
| `Connection.AllDelivered` | libs/network/network_interface.cpp:162-167 | in every state a run reaches in which nothing is left to send or in flight, processing hands the reader the very last byte sent, and the handler every complete message, if no length field was cut |
| `Connection.RunKeepsInv` | libs/network/packet_receiver.cpp:19-27 | the invariant of every run of both ends, reader included, and with handlers that destroy the receiving channel |
| `Connection.MessagesDelivered` | test/network/tcp_server_demo/server.cpp:32-37 | `Channel::send` to `PacketReader::processMessages`: over every run, if no received packet cut a length field, the handler got an initial part of the enqueued messages, unchanged and in order |
| `Connection.MessagesDamaged` | test/network/tcp_server_demo/server.cpp:32-37 | `Channel::send` to `PacketReader::processMessages`: over every run in which the bytes left over behind empty messages are zero, the handler got one message for each consumed one, beheaded exactly where its length field was cut, and an initial part of what was sent if and only if only empty ones were |
| `Connection.MessagesAsRead` | test/network/tcp_server_demo/server.cpp:32-37 | `PacketReader::processMessages`: over every run without exception, what the handler got is the stream as read with the cut messages beheaded, and exactly when that is what the stream means |
| `Connection.ReceiverStopsIff` | libs/network/network_interface.cpp:162-167 | `Channel::processPackets`: in every state a run reaches with a live receiver, the receiving program stops at a handler that destroys its own channel if and only if the stream as read gets to its message and that ends no packet |
| `Turns.BreakSticks` | libs/dispatcher/event_dispatcher.cpp:99-124 | after a break every further turn runs tasks only, until a task clears it |
| `Turns.PhasesStopAtBreak` | libs/dispatcher/event_dispatcher.cpp:99-115 | phases run in order tasks, timers, network; each later one is skipped exactly when a break stands before it; a turn that skips one ends in the break status |
| `Turns.StatusIsLastSet` | libs/dispatcher/event_dispatcher.cpp:99-115 | the status after a turn is the last one that a callback of a phase that ran has set; with none, a break stays and anything else becomes running |
| `Turns.LoopEndsInBreak` | libs/dispatcher/event_dispatcher.cpp:117-124 | the loop stops only in the break status and runs no turn after the first that ended in it |
| `Turns.UntilBreakStarts` | libs/dispatcher/event_dispatcher.cpp:117-124 | the loop runs no turn after a break, and otherwise begins with a turn from running |
| `Turns.WaitingIsForgotten` | libs/dispatcher/event_dispatcher.cpp:101-102 | a request to break later has no effect on the next turn |
| `Waiting.InTimeIff` | libs/dispatcher/event_dispatcher.cpp:152-154 | for every limit and every distance, the timeout ends before the next timer if and only if the limit is not negative, bit 31 of the distance is clear, and the limit or the low 32 bits of the distance, as milliseconds, fits the distance |
| `Waiting.WaitIs` | libs/dispatcher/event_dispatcher.cpp:146-158 | for all limits and distances the timeout is the limit or the low 32 bits of the distance, taken as negative when bit 31 is set, and not above either |
| `Waiting.CountNeverExceeds` | libs/dispatcher/event_dispatcher.cpp:146-158 | as bare numbers the timeout never exceeds the limit or the distance; it is negative, hence unlimited, if and only if the limit is or bit 31 of the distance is set |
| `Waiting.NeverSleepsPastIff` | libs/dispatcher/event_dispatcher.cpp:146-168 | after a pass has left the queue quiet, and for any later reading, the timeout is in time for every live timer if and only if it fits the first |
| `Waiting.Oversleeps` | libs/dispatcher/event_dispatcher.cpp:152-154 | inputs on which it is not: a millisecond away, three seconds away, and beyond 32 bits |
| `EventDispatcher.EventDispatcher.AddTimer` | libs/dispatcher/event_dispatcher.cpp:29-38 | no timer for zero; otherwise one that expires after now, in milliseconds, repeating with a positive interval or one-shot |
| `EventDispatcher.EventDispatcher.CalculateWait` | libs/dispatcher/event_dispatcher.cpp:146-158 | the limit without timers; otherwise the smaller of the limit and the narrowed distance to a timer of least time, stated from that timer's time |
| `EventDispatcher.EventDispatcher.ProcessTimers` | libs/dispatcher/event_dispatcher.cpp:165-168 | one complete pass, counted on 32 bits |
| `EventDispatcher.EventDispatcher.ProcessNetwork` | libs/dispatcher/event_dispatcher.cpp:93-97 | dispatches the batch; the poller is told the calculated timeout when idling and -1, that is, unlimited, otherwise |
| `EventDispatcher.EventDispatcher.ProcessOnce` | libs/dispatcher/event_dispatcher.cpp:99-115 | one turn: status and phases as the turn function says, one pass over the tasks, a complete timer pass and a dispatched batch where these phases run, the result and the timeout; every part whose phase did not run is unchanged |
| `EventDispatcher.EventDispatcher.ProcessUntilBreak` | libs/dispatcher/event_dispatcher.cpp:117-124 | the loop is a run of such turns from the first state to the last, its phases are those of the loop function, and it ends early only in the break status |
| `DispatcherRuns.RunOfTasks` | libs/dispatcher/event_dispatcher.cpp:117-124 | over a run of turns the tasks are the composition of one pass per turn, in their original order |
| `DispatcherRuns.RunOfTimer` | libs/dispatcher/event_dispatcher.cpp:117-124 | over a run of turns, through breaks and late turns, a live timer that no handler cancels fires exactly on its schedule up to the latest reading of the passes |
| `DispatcherRuns.RunOfPoller` | libs/dispatcher/event_dispatcher.cpp:117-124 | the poller sees exactly the batches of the turns that reach the network phase, and installed handlers stay covered in every state of the run |
| `DispatcherRuns.RunOfCalls` | libs/dispatcher/event_dispatcher.cpp:165-168 | over a run of turns the count of timer calls grows by the handler calls of its passes, on 32 bits |
| `DispatcherRuns.RunOfWaits` | libs/dispatcher/event_dispatcher.cpp:117-124 | in every turn of the loop that reaches the poller, the timeout is the one for the least time queued, and it is in time for all live timers if and only if it fits the first; the result is the number of events, or -1 |
| `EventDispatcher.EventDispatcher.SetMaxWait` | libs/dispatcher/event_dispatcher.cpp:88-91 | the least whole number of milliseconds that is not below the limit given in seconds |
| `Tasks.KeptExact` | libs/dispatcher/tasks.cpp:34-46 | a task stays, at its place, exactly when its own call answered so |
| `Tasks.OrderKept` | libs/dispatcher/tasks.cpp:17-46 | over any run of additions, cancellations and passes the remaining tasks are in the order they were added |
| `Tasks.CancelExact` | libs/dispatcher/tasks.cpp:22-32 | cancelling takes out the first occurrence and nothing else |
| `Tasks.RunAccounts` | libs/dispatcher/tasks.cpp:17-46 | over any run what remains and what was cancelled or dropped is, as a multiset, what there was and what was added |
| `Tasks.TaskList.Cancel` | libs/dispatcher/tasks.cpp:22-32 | removes the first occurrence only, and tells whether there was one |
| `Tasks.TaskList.Process` | libs/dispatcher/tasks.cpp:34-46 | erasing while iterating calls every task once in order and leaves the filter of the answers |
| `ChannelTable.CompletesIff` | libs/network/network_interface.cpp:155-169 | a pass completes if and only if no channel is destroyed by the time it is visited, before the pass or by the handlers of an earlier processed one, and no processed channel is destroyed by its own handlers in the middle of a packet; which ones are processed is computed from the table alone |
| `ChannelTable.VisitsPartition` | libs/network/network_interface.cpp:155-169 | in a completed pass every channel is visited exactly once, and is either removed or processed; the table loses exactly the removed |
| `ChannelTable.InVisitingOrder` | libs/network/network_interface.cpp:155-169 | the channels removed and those processed are each visited in the order of their addresses |
| `ChannelTable.PassLeaves` | libs/network/network_interface.cpp:155-169 | what a completed pass leaves of each channel that stays: condemned or destroyed exactly if it was before or the handlers of any processed channel, its own included, did so |
| `ChannelTable.RemovedIff` | libs/network/network_interface.cpp:155-169 | a completed pass processes and keeps exactly the channels so computed and removes exactly the others |
| `ChannelTable.ProcessedIff` | libs/network/network_interface.cpp:155-169 | a visited channel is processed if and only if it was not condemned before the pass and is not by the handlers of an earlier processed one |
| `ChannelTable.RunKeepsTable` | libs/network/network_interface.cpp:171-188 | over every run of registrations, deregistrations, passes, and condemning and destroying from outside: every key has an ip and is its live channel's address |
| `ChannelTable.RunKeepsDistinct` | libs/network/network_interface.cpp:171-188 | over every such run in which the kernel hands out fresh descriptors, live registered channels have distinct ones |
| `ChannelTable.FoundIff` | libs/network/network_interface.cpp:50-81 | over every such run that does not register it again, a registered channel is the one found under its address if and only if nobody deregistered that address and no pass found it condemned |
| `ChannelTable.RegisteredIsFound` | libs/network/network_interface.cpp:171-188 | over every run that begins with the registration of a channel at a free address and does not register it again, it is the channel found there if and only if nothing in the run removes it |
| `ChannelTable.NeverStops` | libs/network/network_interface.cpp:155-169 | no run in which nobody destroys a registered channel stops at an assertion |
| `ChannelTable.LookupsAgree` | libs/network/network_interface.cpp:83-92 | in every state such a run reaches, looking up a live registered channel by its descriptor and by its address gives the same |
| `ChannelTable.FindFdIs` | libs/network/network_interface.cpp:83-92 | the lookup by descriptor finds the first live channel with it, and nothing exactly when there is none |
| `NetworkInterface.NetworkInterface.RegisterChannel` | libs/network/network_interface.cpp:171-188 | registers under the endpoint address if and only if that is free, and says so, keeping keys and addresses equal |
| `NetworkInterface.NetworkInterface.DeregisterChannel` | libs/network/network_interface.cpp:50-65 | removes whatever is registered under the address, says whether there was anything, and notifies the handler, if set, once |
| `NetworkInterface.NetworkInterface.FindByAddress` | libs/network/network_interface.cpp:67-81 | the channel registered under the address, if any |
| `NetworkInterface.NetworkInterface.FindByFd` | libs/network/network_interface.cpp:83-92 | the first channel in address order that still has an endpoint with the descriptor |
| `NetworkInterface.NetworkInterface.ProcessChannels` | libs/network/network_interface.cpp:155-169 | the pass over the live map, erasing while iterating and with handlers that condemn and destroy channels, their own included, is the processing function, up to where the source fails; the table invariant holds afterwards |
| `NetworkInterface.NetworkInterface.DeregisterAllChannels` | libs/network/network_interface.cpp:41-48 | every registered channel ends up destroyed and the table empty, if and only if none was destroyed before; otherwise it reports where the source follows a missing endpoint |
| `Addresses.LessIsStrictTotal` | libs/network/address.cpp:49-62 | the order is strict and total and agrees with equality |
| `Addresses.LessIsNumeric` | libs/network/address.cpp:59-62 | it is the order of the numbers made of ip and port |
| `Addresses.NeverTruncated` | libs/network/address.cpp:31-47 | the text has at most 21 characters, so the 32-byte buffer never truncates it |
| `Addresses.ParsePrinted` | libs/network/address.cpp:31-47 | parsing the printed text gives the address back |
| `Addresses.PrintsInjective` | libs/network/address.cpp:31-52 | two addresses print alike if and only if they are equal |
| `Addresses.PrintsBytes` | libs/network/address.cpp:31-47 | for all bytes of an address, in network order, the text is their decimal texts with dots, a colon and the decimal text of the port |
| `Addresses.DecimalUnique` | libs/network/address.cpp:38-45 | a decimal text, without leading zeros, is the only one of its number |
| `Addresses.Loopback` | libs/network/address.cpp:31-47 | an instance: 127.0.0.1:8080 |

## Sources outside the table

The repository keeps some of its sources in an encoding other than UTF-8, so their lines cannot be named in the
table; a row about such code names the place where it is called, or the demo or test that shows what is expected
of it. The code itself is in these places:

- `Timers.Timer`: `libs/common/timer.cpp`, lines 5-50.
- `Channels.Channel`: `libs/network/channel.cpp`; `addReceiveWindow` lines 54-93, `bundlesLength` 95-103, `destroy`
  131-143, `onPacketReceived` 211-243, `onPacketSent` 245-279, `onSendCompleted` 281-285, `processPackets` 287-335,
  `stopRecv` 337-345, `send` 347-443, `stopSend` 445-453, `clearState` 455-484. `SenderRuns.Next` and `Connection.Next`
  put these together. The default limits are in `libs/network/common.cpp`, lines 20-26.
- `Packets.Packet`: `libs/network/packet.h`, lines 10-44, and `libs/common/memorystream.cpp`, lines 244-270 and 362-387.
- `PacketReader.PacketReader` and `Reassembly`: `libs/network/packet_reader.cpp`, lines 21-90. `Reassembly.Feed` is
  `processMessages`, and `Interruption.FeedUntil` the same up to a message; the length field that was cut is completed at lines 47-58, and the stashed byte stored at 81-90.
- `Codec`: `libs/common/memorystream.cpp`, lines 34-209; the 64-bit writers are at 51-56 and 77-82.

## Left out

- System calls (sockets, `epoll_wait`, `accept`, `close`): replaced by parameters that range over all their answers; descriptors closed behind the poller's back are not modelled.
- UDP, multicast, the listening socket, `Channel::initialize` and `finalise`, socket options: plumbing around the parts modelled here.
- Logging, `strerror`, packet and byte statistics, spare time, singletons, the thread pool, the connection pool and the Python bindings.
- Registration counts of timer handlers and `onRelease`: not modelled; a handler is known only by what it does to timers.
- Timers.TimerQueue.Add: intervals are not negative and time does not overflow 64 bits; a negative interval given directly to the queue would let a pass run forever.
- Timers.TimerQueue.HandleTimeout: timers added by a handler expire after the time of the pass, which `EventDispatcher::addTimer` guarantees; the heap is a set with a top of least time, so its tie-breaking is left open.
- Tasks.TaskList.Process: tasks do not edit the list while it is being processed, which in the source would invalidate its iterator.
- ChannelTable.CompletesIff: what waits at the channels is not part of the table; whether a visited channel's own handlers destroy it, and in the middle of a packet, is a parameter of the pass, and `Interruption.FateIff` says when it is so.
- NetworkInterface.NetworkInterface.DeregisterAllChannels: channels have been initialised; dropping the last reference to one that was not runs its destructor, whose first log line follows the missing endpoint.
- NetworkInterface.NetworkInterface.ProcessChannels: packet handlers may condemn and destroy channels but not register or deregister them during the pass; nor may the deregister handler, whose calls are only listed; what they read is the subject of `Channels.Channel.ProcessPackets`.
- EventDispatcher.EventDispatcher.ProcessOnce: callbacks of one phase reach the other parts of the dispatcher only through the status field, apart from timer handlers editing the timer queue and poller callbacks editing the poller.
- EventDispatcher.EventDispatcher.SetMaxWait: real arithmetic; the rounding of doubles and limits beyond `int` are not modelled.
- EventDispatcher.EventDispatcher.ProcessUntilBreak: the loop is observed for a finite list of turns.
- Channels.Channel.Send: a packet object is not queued twice nor changed while queued; the demo server, which reuses one object, does not meet this. On a destroyed channel the source's first log line already follows the missing endpoint; the model goes on and drops the queue, as the code behind that line does.
- Channels.Channel.ProcessPackets: handlers that throw, and the condemnation that follows, are covered only as an external condemnation; the destruction by a handler is carried out when the reader has returned, before which the reader no longer uses the channel unless the program stops.
- PacketReader.PacketReader.WriteFragmentMessage: copying a stashed byte beyond the end of the vector is undefined in C++; here such a byte is not kept.
- Strings in the byte stream (`operator<<` and `operator>>` on text) and hexadecimal dumps.
- Codec works on values: the stream's positions are not updated in place there.
- Connection.StreamConserved: one direction of one connection, with the sending and receiving channels under the same limits.
