# Verified model of the LoRa packet forwarder

This project models the parts of the packet forwarder whose correctness rests on an argument rather than on plumbing,
and proves what they promise.

* **The just-in-time TX scheduler** (`Circle`, `Jit`, `JitOrder`, `JitArcs`, `JitClassC`, `JitPeek`, `JitQueue`,
  `JitThreads`, `JitWitness`, `JitAir`, `TimerSync`). A queue of at most 32 transmissions, each reserving an arc of
  the 2^32 µs counter circle. `Jit` says on values what each locked section of `jit_enqueue`, `jit_dequeue` and
  `jit_peek` does; the class `JitQueues.JitQueue` does it in place on the node array and is proved against that;
  `JitThreads` lets the downlink thread and the JIT thread interleave at every point where the lock is released, and
  `JitWitness` holds runs of them that end badly. `JitAir` ties all of it to the times on air of the packets offered,
  written out.
* **The message queues** behind the datagram links and the logs (`WaitQueue`, `WaitQueueRuns`, `WaitQueueOutcomes`): a
  monitor with two condition variables, high-water marks, timeouts, close, reset and drain-then-close. Waiting threads
  are explicit, each asleep, notified or timed out, and the results hold for every interleaving, spurious wake-ups
  included.
* **JSON** (`Json*`): parser, serializer, comment removal, escapes and UTF-8, objects as maps, dotted names,
  comparison and copy. `JsonText` and `JsonParse` are the functions that the proofs talk about; `JsonReader`,
  `JsonPrinter`, `JsonStrings`, `JsonBlanking` and the class in `JsonObjects` are the loops, buffers and cursors of
  the program, proved to compute them. `JsonGrammar`, `JsonEscapes`, `JsonNumbers` and `JsonLayout` say what texts,
  characters, digits and layout mean without the functions of the program: by the grammar of RFC 8259, by tables, by
  places and by joining parts.
* **Codecs** (`Base64`, `Base64Bits`, `Crc16`): the buffer-filling loops, the algebra behind them, and which bits each
  character carries.

`dafny verify dfyconfig.toml` checks everything.

## What the proofs found

* After `jit_peek` drops an outdated packet the scan goes on at index 1, not 0. When the head is outdated and the
  packet behind it is due, that packet is missed (`DuePacketIsMissed` is a run that ends so) and found by the next
  peek, if it is still due then (`MissedIsFoundNext`). `PeekRightExactly` shows that this is the only way the answer
  can be wrong.
* The collision test is exact as long as a transmission lasts at most `MAX_POST`; one microsecond more and a beacon
  inside a queued downlink is let through (`MaxPostIsExact`).
* Between a peek and its dequeue the index goes on naming the peeked packet exactly when the packets accepted
  meanwhile depart after it (`PeekedIndexSurvivesExactly`, and over runs `DequeuesWhatItPeeked`). Two things can make
  one depart before it. A clock of the enqueue that lags behind that of the peek: up to 5002 µs is safe, for packets
  that depart ahead of that clock, and no more is (`SafeLagIsExact`). And, without any lag, a packet that lies behind
  the clock. A beacon there is neither too late nor checked for being too early, so it is accepted, sorts in front of
  the packet that is due, and is dequeued in its place (`BeaconBehindTakesIndex`, and as a run
  `PassedBeaconIsDequeued`). The beacon loop produces such beacons when it catches up period by period.
* A class A or B packet accepted exactly 512 s ahead is dropped as outdated by a peek at the same clock, because the
  two bounds overlap in that one point (`AcceptedIsOutdatedExactly`).
* The first slot that the search for class C finds is the soonest, among departures behind the first queued packet
  that keep the distances it keeps (`NothingSooner`).
* Only class A and B packets are sure to depart ahead of the clock when they are accepted (`AheadExactly`): besides
  beacons, a class C packet can be given a departure behind the clock, when the head of the queue has been passed.
* A slot that a peek has vacated reads as a packet that leaves at zero. So a peek can hand out an index behind the
  live nodes at a clock less than 30 ms before the counter reads zero, or at zero, and at no other
  (`PeeksAreLiveExactly`); and then only when the counters lie in no half circle (`PeekedIsLive`). The dequeue then
  hands out the vacated slot and loses the last packet. Runs whose peeks avoid these clocks lose nothing, and at every
  one of these clocks a packet can be lost (`LossExactly`; `PacketIsLost` is such a run). Arcs stay apart and packets
  balanced even then.
* A log queue needs a single reader: the reader that finds it drained closes it without notifying, and a second one
  may sleep on (`LogNeedsOneReader`).
* The parser cuts the capacity of an object to its size, and it may only double after that: a parsed object takes a
  new name if and only if it has at most 480 members, although 960 are allowed (`AddToParsed`, `FullAfterParsing`).
* `json_value_equals` is symmetric, but the tolerance on numbers makes it no equivalence: it is transitive on trees
  whose numbers are multiples of a step if and only if the step is at least the tolerance (`EqualsTransitiveExactly`).
* Printing and parsing gives an equal tree for every tree within the parser's limits, whatever its numbers, because
  six decimals err by half the tolerance at most; the tree itself comes back exactly when its numbers have at most six
  decimals (`PrintThenParseEquals`), as they have after the first time (`PrintingSettles`).
* The parser takes exactly the texts of a grammar written down in `JsonGrammar`, for the values they spell
  (`TextsExactly`). It differs from that of RFC 8259 by what it adds: digits may be missing on one side of a point, a
  vertical tab or form feed is white space, any character may stand for the quote that opens a name, and any text may
  follow the value. And by what it turns down: texts that are no array or object, repeated names, and one kind of
  number, a bare zero with an exponent such as 0e1 (`NumbersExactly`).
* A line comment that begins with a star is not seen as one: the pass for block comments comes first and takes its
  second slash for the beginning of one (`StarredLineFails`).
* `json_object_dotset_value` never leaves a half-made path behind: when it fails, no value has changed
  (`DotSetWrites`).

## Reading of the source

* `qsort_r` may return any permutation; it returns an ascending one when the comparator is an order on the elements,
  which is when all counters lie in a half circle, because the comparator subtracts signed 32-bit numbers. Of the
  results over runs only those on which packet is dequeued assume this half circle, and only between the peek and its
  dequeue (`OrderlySince`).
* `nodes[-1]`, read by `jit_peek` when no candidate was found, is outside the array; both branches then hand out -1,
  and the model returns -1. `time_us + 1E6` goes through a double; the model wraps the sum, and `ClassCIsAccepted` asks
  that it stay below 2^32. `lgw_time_on_air` is a parameter. A null packet or time is an absent option, and a null
  pointer for a result is the argument `wanted` when false.
* The length of the element given out by `recv` is read after the element is popped; the model uses the length of the
  popped element, as is meant.
* A C string is a `string` without NUL, a `char` of it the code of one byte. Masks and shifts are divisions and
  remainders. Numbers are reals: `strtod` reads decimal numbers without rounding, `%f` prints six decimals of the
  exact value. `get_quoted_string` takes any character for the opening quote of a member's name, and so does the
  model.
* `exit` on a character outside the Base64 alphabet is a result of its own. The 16-bit words of the checksum are lists
  of bits; the beacon carries them low byte first, while the self-check of `ChecksItself` takes the high byte first.

## Model

| member | source | states |
|---|---|---|
| JitArcs.CollideMeansMeeting | lora_pkt_fwd/src/jitqueue.c:122-129 | as long as the 32-bit sums do not wrap, the collision test is true exactly when some point of one window comes within 1000 µs of a point of the other |
| JitArcs.ApartMeansArcsApart | lora_pkt_fwd/src/jitqueue.c:122-129 | two queued packets pass the test exactly when no point of one reserved arc comes within 1000 µs of a point of the other |
| JitArcs.CollideMonotone | lora_pkt_fwd/src/jitqueue.c:122-129 | longer guards collide with more, as long as the 32-bit sums do not wrap |
| JitArcs.NoClashIsApart | lora_pkt_fwd/src/jitqueue.c:262-277 | the test made at insertion, with the reduced beacon guard for class A and C, is at least as strict as the pair's arcs require |
| JitArcs.MaxPostIsExact | lora_pkt_fwd/src/jitqueue.c:122-129 | beacons let through miss every queued downlink if and only if the downlink's post delay is at most MAX_POST |
| JitArcs.EnqueueKeepsApart | lora_pkt_fwd/src/jitqueue.c:262-311 | an insertion, with its sort, keeps all queued arcs apart |
| JitArcs.RemovalKeepsApart | lora_pkt_fwd/src/jitqueue.c:350-355 | putting the last node in the freed place and sorting keeps all arcs apart |
| JitAir.VerdictExactly | lora_pkt_fwd/src/jitqueue.c:145-298 | every verdict on an offer, from kinds, departures and times on air alone: too late within 32.5 ms, too early beyond 512 s for class A and B, accepted when its time on air and its lead keep a millisecond from what every queued packet needs, and else refused by the kind of the first packet it disturbs |
| JitAir.RefusedOnAir | lora_pkt_fwd/src/jitqueue.c:158 | a packet that departs while a queued one is on the air, or is on the air when that one departs, is refused |
| JitAir.TransmissionsAreApart | lora_pkt_fwd/src/jitqueue.c:145-167 | in every reachable state, two queued packets, with the times on air they were offered with, are never on the air together, and their leads keep a millisecond from the other's transmission |
| JitAir.QueuedWasOffered | lora_pkt_fwd/src/jitqueue.c:300-311 | every queued packet was offered by the downlink thread and accepted then, unchanged but for the departure and the mode of class C |
| JitAir.QueueHoldsOffers | lora_pkt_fwd/src/jitqueue.c:300-311 | the queue of every reachable state is made of such offers, so that the exact verdict holds in every run |
| JitAir.AcceptedIsOutdatedExactly | lora_pkt_fwd/src/jitqueue.c:249-255 | an accepted class A or B packet is outdated at the clock of its acceptance if and only if it is exactly 512 s ahead |
| JitOrder.RemovalKeepsOrder | lora_pkt_fwd/src/jitqueue.c:350-355 | on an ascending queue, swap-with-last and sort remove one packet and leave the others in their order |
| JitOrder.AscendingIsKeySorted | lora_pkt_fwd/src/jitqueue.c:94-120 | on a half circle the comparator's order is the order of distances from its start |
| JitClassC.GapFits | lora_pkt_fwd/src/jitqueue.c:196-222 | the slot chosen by looking at two neighbours misses every node of the queue |
| JitClassC.ClassCDeparture | lora_pkt_fwd/src/jitqueue.c:173-222 | the departure given to class C, exactly: a second from now if nothing queued blocks that, else 62.5 ms behind the end of the first packet whose successor does not block it there, or of the last |
| JitClassC.NothingSooner | lora_pkt_fwd/src/jitqueue.c:196-222 | in an ascending window of apart packets no departure behind the first packet that keeps the same distances is sooner |
| JitClassC.ClassCIsAccepted | lora_pkt_fwd/src/jitqueue.c:173-311 | a class C packet offered to a queue that lies ahead of now is accepted, whatever the queue holds |
| JitPeek.PeekDropsOnlyStale | lora_pkt_fwd/src/jitqueue.c:387-414 | whatever the sort does, a peek loses only packets at least TX_MAX_ADVANCE_DELAY ahead, permutes the rest and keeps a right beacon counter right |
| JitPeek.PeekedIsLive | lora_pkt_fwd/src/jitqueue.c:387-436 | the index handed out is -1 or names a live packet due within TX_JIT_DELAY: in any queue at a clock not in the last 30 ms before the wrap, and at any clock when the comparator is an order |
| JitPeek.PeekExact | lora_pkt_fwd/src/jitqueue.c:387-424 | exactly which packets a peek leaves, and that the candidate is the modular minimum of those scanned |
| JitPeek.PeekWithoutStale | lora_pkt_fwd/src/jitqueue.c:387-436 | with nothing outdated the queue is unchanged and the answer is the soonest packet if it is due, else -1, in whatever order the nodes stand and wherever the counters lie |
| JitPeek.PeekRightExactly | lora_pkt_fwd/src/jitqueue.c:412-436 | the answer is right for what is left in the queue exactly unless the head was outdated and the packet behind it due |
| JitWitness.DuePacketIsMissed | lora_pkt_fwd/src/jitqueue.c:412-436 | a run of the two threads in order throughout, ending in a peek that hands out -1 while the only packet left is due |
| JitPeek.MissedIsFoundNext | lora_pkt_fwd/src/jitqueue.c:412-436 | the packet behind an outdated head, due and missed or not due yet, is handed out at index 0 by the next peek at which it is due, after whatever the first peek found has been dequeued |
| JitPeek.PeekedIndexSurvivesExactly | lora_pkt_fwd/src/jitqueue.c:94-120 | an index goes on naming its packet through an insertion if and only if the new packet departs after it, less than half a turn on |
| JitPeek.SafeLagIsExact | lora_pkt_fwd/src/jitqueue.c:232-236 | for every lag: packets ahead of a clock that lags by at most so much never take over a peeked index, if and only if the lag is at most 5002 µs |
| JitPeek.BeaconBehindTakesIndex | lora_pkt_fwd/src/jitqueue.c:249-255 | a beacon far enough behind the clock and clear of a due packet is accepted, sorts in front and takes over the index, where class A would be too early |
| JitWitness.PassedBeaconIsDequeued | lora_pkt_fwd/src/lora_pkt_fwd.c:2111-2124 | a run in order throughout in which a downlink is peeked as due and a beacon ten seconds late is dequeued in its place |
| JitPeek.AheadExactly | lora_pkt_fwd/src/jitqueue.c:232-255 | of a kind of packet all that are accepted depart ahead of the clock, within a quarter turn, if and only if the kind is class A or B |
| JitWitness.PeekBehindLiveNodes | lora_pkt_fwd/src/jitqueue.c:387-436 | at every clock in the last 30 ms, or at zero, a queue of apart packets from which a peek hands out index 1 with one packet left |
| JitWitness.PeeksAreLiveExactly | lora_pkt_fwd/src/jitqueue.c:387-436 | for every clock: all peeks at it, of apart packets, hand out -1 or a live index if and only if the clock is at least TX_JIT_DELAY away from reading zero |
| JitWitness.PacketIsLost | lora_pkt_fwd/src/lora_pkt_fwd.c:2601-2606 | for every other clock, a run of the two threads with a single peek, at that clock, that ends in a dequeue that loses a packet |
| JitWitness.LossExactly | lora_pkt_fwd/src/lora_pkt_fwd.c:2601-2606 | for every set of clocks: no run that peeks at these clocks only loses a packet, wherever the counters lie, if and only if all of them are at least TX_JIT_DELAY away from reading zero |
| JitQueues.JitQueue.Enqueue | lora_pkt_fwd/src/jitqueue.c:131-321 | null packet, full queue, or the insertion that the specification allows, with the time conversion to 32 bits |
| JitQueues.JitQueue.Insert | lora_pkt_fwd/src/jitqueue.c:169-311 | the locked section: departure time search, too late, too early, collision, or sorted in with the beacon counted |
| JitQueues.JitQueue.FindAsap | lora_pkt_fwd/src/jitqueue.c:178-222 | the two search loops find the departure time that ClassCDeparture characterises |
| JitQueues.JitQueue.FindCollision | lora_pkt_fwd/src/jitqueue.c:262-298 | the loop reports the first queued packet that collides, by its kind |
| JitQueues.JitQueue.Dequeue | lora_pkt_fwd/src/jitqueue.c:323-365 | null packet or bad index, empty queue, the named packet handed out and removed, or, for an index behind the live nodes, a dead slot handed out and the last packet lost |
| JitQueues.JitQueue.Peek | lora_pkt_fwd/src/jitqueue.c:367-441 | null pointer, empty queue, or purge and choice as the specification says; the loop ends although it starts over |
| JitQueues.JitQueue.Sort | lora_pkt_fwd/src/jitqueue.c:110-120 | a sort that meets what is asked of qsort_r |
| JitThreads.QueuedArcsAreApart | lora_pkt_fwd/src/lora_pkt_fwd.c:2601-2606 | in every reachable state of the two threads, wherever the counters lie, the arcs of any two queued packets are more than the margin apart |
| JitThreads.NothingLostOrMiscounted | lora_pkt_fwd/src/lora_pkt_fwd.c:2104-2178 | in every reachable state at most 32 packets, and accepted packets are queued, dequeued, dropped or lost; while every peek comes at a clock clear of the wrap, or in a half circle, none is lost and num_beacon is the number of beacons, at most 3 |
| JitThreads.DequeueIsSafe | lora_pkt_fwd/src/lora_pkt_fwd.c:2603-2606 | under the same test on the peeks, the index is within the queue from the peek to the dequeue |
| JitThreads.DequeuesWhatItPeeked | lora_pkt_fwd/src/lora_pkt_fwd.c:2601-2606 | when the comparator is an order from a peek to the dequeue, the packet peeked was due, and the one dequeued is that packet if and only if no packet accepted in between departs before it |
| JitThreads.TimelyRunIsNotOvertaken | lora_pkt_fwd/src/lora_pkt_fwd.c:2601-2606 | none does when the packets queued since the peek are ahead of clocks that lag by at most 5002 µs |
| TimerSync.Synchronizer.GetConcentratorTime | lora_pkt_fwd/src/timersync.c:61-75 | converted as the scheduler does, the time read is the counter at the last synchronization plus the elapsed microseconds mod 2^32, for every unix time |
| TimerSync.OffsetGivesCounter | lora_pkt_fwd/src/timersync.c:108-117 | the same for any offset that takes the counter to the unix time at a sync |
| TimerSync.ReadingsDifferByElapsed | lora_pkt_fwd/src/timersync.c:61-75 | two readings differ by the unix time between them, also backwards and past the counter's wrap |
| TimerSync.Synchronizer.SetConcentratorTime | lora_pkt_fwd/src/timersync.c:87-120 | the offset is the normalised difference of unix time and counter, and the drift reported is how much more the unix clock has run than the counter since the sync before |
| WaitQueues.WaitQueue.Send | lora_pkt_fwd/src/lora_comms.cc:61-88 | closed, zero mark, full with and without waiting, or accepted, cut to the send buffer, with receivers notified |
| WaitQueues.WaitQueue.Recv | lora_pkt_fwd/src/lora_comms.cc:90-112 | closed, drained log closing itself, nothing there, or the first message handed out and senders notified |
| WaitQueues.WaitQueue.ResumeSend | lora_pkt_fwd/src/lora_comms.cc:143-170 | how a woken sender goes on: EBADF, room, EAGAIN, or back to sleep |
| WaitQueues.WaitQueue.ResumeRecv | lora_pkt_fwd/src/lora_comms.cc:143-170 | how a woken receiver goes on |
| WaitQueues.WaitQueue.Close | lora_pkt_fwd/src/lora_comms.cc:47-59 | empties, marks and wakes everyone; a log queue that is not empty is only marked |
| WaitQueueRuns.QueueIsFifo | lora_pkt_fwd/src/lora_comms.cc:192-218 | in every interleaving, closes included, the messages sent, cut to the buffer, leave in order, each handed out as itself, trimmed to the receiver's length, or thrown away by a close; the rest are queued, size counts their bytes, and a closed queue is empty |
| WaitQueueRuns.SendReturnsLength | lora_pkt_fwd/src/lora_comms.cc:192-204 | a send that succeeds returns the length of the message it queued |
| WaitQueueOutcomes.OutcomesExactly | lora_pkt_fwd/src/lora_comms.cc:61-170 | in every interleaving, which outcome ends a step of send or recv, and exactly when: EBADF, nothing for a zero mark, success, EAGAIN, or blocking |
| WaitQueueOutcomes.BlocksExactly | lora_pkt_fwd/src/lora_comms.cc:143-170 | a blocked call leaves its thread asleep in the queue, able to time out if and only if its timeout is positive, and an ended one leaves nothing |
| WaitQueueOutcomes.DataExactly | lora_pkt_fwd/src/lora_comms.cc:192-222 | how much of a message is queued and returned by a send, and which bytes a receive hands out |
| WaitQueueOutcomes.ClosesExactly | lora_pkt_fwd/src/lora_comms.cc:46-59 | what a close changes, at once or later, and that everyone who waits then fails with EBADF |
| WaitQueueOutcomes.ResetsExactly | lora_pkt_fwd/src/lora_comms.cc:36-44 | a reset opens the queue with what it holds and who waits |
| WaitQueueRuns.SizeIsBounded | lora_pkt_fwd/src/lora_comms.cc:61-88 | with marks from 1 to H the size stays below H plus the send buffer, although several senders may be woken at once |
| WaitQueueRuns.NoWakeupIsLost | lora_pkt_fwd/src/lora_comms.cc:114-170 | a receiver left asleep means an empty open queue, a sender left asleep an open queue at or above its mark |
| WaitQueueRuns.ClosedQueueFreesAll | lora_pkt_fwd/src/lora_comms.cc:47-59 | after close every blocked call is awake and its next step fails with EBADF |
| WaitQueueRuns.LogNeedsOneReader | lora_pkt_fwd/src/lora_comms.cc:287-297 | no run of a log queue strands a thread if and only if at most one thread reads it |
| WaitQueueRuns.GracefulClose | lora_pkt_fwd/src/lora_comms.cc:237-253 | without immediate closes, EBADF is seen only after every accepted message was handed out, in order and as itself |
| WaitQueueRuns.DrainsThenCloses | lora_pkt_fwd/src/lora_comms.cc:287-297 | one reader gets all messages of a log queue to be closed, then EBADF, and never blocks |
| JsonRoundTrip.PrintThenParse | lora_pkt_fwd/src/parson.c:904-911 | parsing printed text, compact or pretty, gives the tree back with its numbers at six decimals exactly when depth, sizes and control characters are within the parser's limits |
| JsonGrammar.TextsExactly | lora_pkt_fwd/src/parson.c:904-911 | a text is read as a value if and only if it spells that value: white space, then an array or object of the parser's grammar within its limits on nesting, counts and repeated names |
| JsonGrammar.TextParses | lora_pkt_fwd/src/parson.c:555-664 | every array or object so spelled, with any white space, escapes and number formats, is read as its value, whatever stands behind it |
| JsonRounding.PrintThenParseEquals | lora_pkt_fwd/src/parson.c:1677-1736 | whatever the numbers, what comes back equals the tree as json_value_equals has it, and it is the tree itself exactly when its numbers have at most six decimals |
| JsonRounding.PrintingSettles | lora_pkt_fwd/src/parson.c:725-833 | what has been printed and parsed once comes back unchanged, in either style |
| JsonRoundTrip.ValueReadsBack | lora_pkt_fwd/src/parson.c:555-664 | the text of any value in front of more text parses to it, at six decimals, and leaves that text, exactly when the value fits at its depth |
| JsonLimits.ParsedIsGood | lora_pkt_fwd/src/parson.c:555-664 | every tree the parser returns is well formed, with unique names, and within the limits on depth and sizes |
| JsonRounding.ParsePrintParse | lora_pkt_fwd/src/parson.c:904-911 | a parsed tree is read back from its print, at six decimals, exactly when its strings hold no control character that is not escaped, and as it was exactly when its numbers have at most six decimals, too |
| JsonRoundTrip.QuotedRoundTrip | lora_pkt_fwd/src/parson.c:545-553 | a serialized string is read back exactly when it holds no control character but the five escaped ones |
| JsonGrammar.StringParses | lora_pkt_fwd/src/parson.c:545-553 | a string in any spelling is read as what it means, up to its first NUL |
| JsonEscapes.StringsExactly | lora_pkt_fwd/src/parson.c:493-541 | what stands between quotes is accepted exactly when it consists of plain characters, named escapes and escapes of code points, and it is what they stand for |
| JsonEscapes.EscapeCharExactly | lora_pkt_fwd/src/parson.c:835-862 | printing escapes exactly the eight characters that have a name, by that name |
| JsonNumbers.NumberRoundTrip | lora_pkt_fwd/src/parson.c:692-703 | a number printed in front of something that ends a value passes the decimal check and is read back as the nearest multiple of a millionth |
| JsonNumbers.NumberTextExactly | lora_pkt_fwd/src/parson.c:811-824 | a number is printed as its decimal digits alone if it is an int of 32 bits, and else with a point and six digits, to the nearest millionth |
| JsonGrammar.NumbersExactly | lora_pkt_fwd/src/parson.c:692-703 | a number in decimal notation is read as its value, with sign, fraction and exponent, unless a zero leads more digits or is followed at once by an exponent; then it is refused |
| JsonRoundTrip.BufferThenParse | lora_pkt_fwd/src/parson.c:1220-1230 | the terminator is the first NUL of a serialization buffer, so its contents parse as the text does |
| JsonPrinter.Serialize | lora_pkt_fwd/src/parson.c:725-833 | the measuring pass returns the length of the printed text; the writing pass writes exactly that text and its terminator and touches nothing else |
| JsonPrinter.SerializeString | lora_pkt_fwd/src/parson.c:835-862 | the same for one string with its escapes |
| JsonLayout.ContainerText | lora_pkt_fwd/src/parson.c:725-804 | compact, the parts of a container stand between commas; pretty, each on its own line, four spaces deeper than the brackets |
| JsonPrinter.SerializationSize | lora_pkt_fwd/src/parson.c:1214-1218 | the size reported is that of text and terminator |
| JsonPrinter.SerializeToBuffer | lora_pkt_fwd/src/parson.c:1220-1230 | succeeds exactly when text and terminator fit, and otherwise leaves the buffer alone |
| JsonPrinter.SerializeToString | lora_pkt_fwd/src/parson.c:1252-1268 | a buffer of the reported size is filled exactly up to its terminator |
| JsonReader.Cursor.ReadValue | lora_pkt_fwd/src/parson.c:555-577 | the cursor version of the parser comes to the specified result and place |
| JsonReader.Cursor.ReadObject | lora_pkt_fwd/src/parson.c:579-617 | the loop over members, with growing capacity and duplicate names rejected, comes to the specified result and place |
| JsonReader.Cursor.ReadMembers | lora_pkt_fwd/src/parson.c:579-626 | and the object it builds is left with a capacity equal to its count |
| JsonReader.Cursor.ReadArray | lora_pkt_fwd/src/parson.c:628-656 | the loop over items, with growing capacity, comes to the specified result and place |
| JsonReader.Cursor.ReadItems | lora_pkt_fwd/src/parson.c:628-664 | and the array it builds is left with a capacity equal to its count |
| JsonReader.Cursor.GetQuotedString | lora_pkt_fwd/src/parson.c:545-553 | the quoted string behind the cursor, unescaped, and the cursor behind it |
| JsonReader.ReadText | lora_pkt_fwd/src/parson.c:904-911 | json_parse_string computes the specified tree |
| JsonReader.ReadTextWithComments | lora_pkt_fwd/src/parson.c:913-930 | the copy is blanked in two passes and parsed |
| JsonStrings.ProcessToBuffer | lora_pkt_fwd/src/parson.c:493-541 | unescaping writes within a buffer one byte longer than its input, and yields the specified string or an error |
| JsonStrings.ProcessedIsShort | lora_pkt_fwd/src/parson.c:493-541 | the output is never longer than the input |
| JsonStrings.SkippedIsComplete | lora_pkt_fwd/src/parson.c:438-451 | what skip_quotes passes over ends at an unescaped quote and never breaks an escape in two |
| JsonStrings.ProcessKeepsUtf8 | lora_pkt_fwd/src/parson.c:493-541 | valid UTF-8 between the quotes is valid UTF-8 in memory, whatever was escaped |
| JsonEscapes.EscapeExactly | lora_pkt_fwd/src/parson.c:453-490 | which escapes are accepted and what they stand for: four hexadecimal digits of a code point outside the surrogates, or the pair of section 2.2 of RFC 2781 |
| JsonStrings.Utf16ToBuffer | lora_pkt_fwd/src/parson.c:453-490 | the escape accepted, the characters read and the bytes written |
| JsonUtf8.VerifyOfBytes | lora_pkt_fwd/src/parson.c:161-201 | every code point outside the surrogates is written as one sequence that verifies to it with its length, whatever follows |
| JsonEscapes.VerifyExactly | lora_pkt_fwd/src/parson.c:161-201 | accepted are exactly the sequences of section 3 of RFC 3629: nothing cut short, overlong, beyond 0x10FFFF or of a surrogate |
| JsonEscapes.BytesExactly | lora_pkt_fwd/src/parson.c:460-489 | the bytes written for a code point are its encoding by section 3 of RFC 3629, which is the only one |
| JsonUtf8.EscapeIsOneSequence | lora_pkt_fwd/src/parson.c:453-490 | every accepted escape or surrogate pair becomes one valid sequence of its code point, shorter than the escape |
| JsonComments.CommentsLeavePrintedText | lora_pkt_fwd/src/parson.c:258-287 | blanking comments changes no printed text, slashes in strings included |
| JsonComments.CommentInFront | lora_pkt_fwd/src/parson.c:913-930 | a comment in front of printed text does not show in what is parsed |
| JsonComments.LineCommentInFront | lora_pkt_fwd/src/parson.c:913-930 | nor does a line comment that does not begin with a star |
| JsonComments.StarredLineFails | lora_pkt_fwd/src/parson.c:913-930 | one that does makes the parse fail |
| JsonComments.StringPasses | lora_pkt_fwd/src/parson.c:258-287 | a string is left alone, however it is spelled and whatever tokens it holds |
| JsonComments.CommentBetween | lora_pkt_fwd/src/parson.c:258-287 | a comment behind text that is passed over becomes as many spaces and the scan goes on behind it |
| JsonComments.FindTokenIsFirst | lora_pkt_fwd/src/parson.c:277 | the closing token found is the first one |
| JsonComments.RemoveOnlyBlanks | lora_pkt_fwd/src/parson.c:258-287 | every character stays or becomes a space |
| JsonBlanking.RemoveInPlace | lora_pkt_fwd/src/parson.c:258-287 | the in-place pass computes the specified text and changes nothing behind its end |
| JsonObjects.AddRefines | lora_pkt_fwd/src/parson.c:301-322 | adding binds a new name in the map, and fails exactly for a bound name or a full object, leaving the map alone |
| JsonObjects.SetRefines | lora_pkt_fwd/src/parson.c:1462-1479 | setting updates the map, and fails exactly for a new name in a full object |
| JsonObjects.RemoveRefines | lora_pkt_fwd/src/parson.c:1572-1590 | removing by putting the last entry in the freed place takes exactly one name out of the map and keeps names unique |
| JsonObjects.CountIsMapSize | lora_pkt_fwd/src/parson.c:301-322 | the count is the size of the map |
| JsonObjects.FullOnlyAtLimit | lora_pkt_fwd/src/parson.c:301-322 | doubling from 15 reaches the limits exactly, so an object or array grown from nothing is full only there |
| JsonReader.AddToParsed | lora_pkt_fwd/src/parson.c:618-626 | adding to the object at the root of a text succeeds if and only if the text parses to an object of at most 480 members without the name |
| JsonReader.FullAfterParsing | lora_pkt_fwd/src/parson.c:618-626 | a text whose object has 481 members, to which no member can be added |
| JsonObjects.TrimmedCanAppend | lora_pkt_fwd/src/parson.c:656-664 | a trimmed array takes another item if and only if it has at most half the limit |
| JsonObjects.JsonObject.AddMember | lora_pkt_fwd/src/parson.c:301-322 | the arrays afterwards: grown before the name is looked at, appended to when it is new |
| JsonObjects.JsonObject.Resize | lora_pkt_fwd/src/parson.c:324-354 | fresh arrays of the new capacity with the same entries, or failure at capacity zero |
| JsonObjects.JsonObject.NGet | lora_pkt_fwd/src/parson.c:356-366 | the value bound to the first n characters of the name |
| JsonObjects.JsonObject.SetMember | lora_pkt_fwd/src/parson.c:1462-1479 | the arrays afterwards: value replaced in place, or as for adding |
| JsonObjects.JsonObject.RemoveMember | lora_pkt_fwd/src/parson.c:1572-1590 | the arrays afterwards: the last entry in the freed place |
| JsonDots.DotGetReads | lora_pkt_fwd/src/parson.c:961-967 | reading a dotted name follows its components through nested maps |
| JsonLayout.ComponentsExactly | lora_pkt_fwd/src/parson.c:961-967 | the components of a dotted name are the one list of names without dots that gives it when joined with dots |
| JsonDots.DotSetWrites | lora_pkt_fwd/src/parson.c:1497-1526 | setting a dotted name succeeds exactly when nothing but objects is in the way and the object that gets a new name can take it; then the path is written in the nested maps, else no value changes |
| JsonDots.DotSetThenGet | lora_pkt_fwd/src/parson.c:1497-1526 | after a success the name reads as the value and every name that parts from it as before; after a failure every name reads as before |
| JsonCompare.EqualsIsSameTree | lora_pkt_fwd/src/parson.c:1677-1736 | the loop over one side's names decides equality of trees up to member order and the tolerance on numbers |
| JsonCompare.EqualsSymmetric | lora_pkt_fwd/src/parson.c:1677-1736 | the comparison is symmetric |
| JsonCompare.EqualsTransitiveExactly | lora_pkt_fwd/src/parson.c:1677-1736 | for every step, the comparison is transitive on trees whose numbers are multiples of it if and only if the step is at least 0.000001 |
| JsonCompare.EqualsTransitiveOnPrinted | lora_pkt_fwd/src/parson.c:1728-1729 | so it is on trees of int-valued numbers and of numbers with six decimals |
| JsonCompare.CopyIsEqual | lora_pkt_fwd/src/parson.c:1142-1212 | the deep copy succeeds exactly within the capacities, has the same members in the same order, and equals its original |
| Base64.DecodeOfEncode | lora_pkt_fwd/src/base64.c:172-249 | decoding undoes encoding for every byte string |
| Base64.EncodeOfDecode | lora_pkt_fwd/src/base64.c:172-249 | re-encoding a decoded text gives it back exactly when its unused trailing bits are zero |
| Base64.PaddedRoundTrip | lora_pkt_fwd/src/base64.c:289-305 | the padded decoder undoes the padded and the unpadded encoder |
| Base64Bits.AlphabetExactly | lora_pkt_fwd/src/base64.c:61-93 | the characters are those of section 4 of RFC 4648, in that order |
| Base64Bits.EncodeExactly | lora_pkt_fwd/src/base64.c:98-170 | character k is the entry in that alphabet of bits 6k to 6k+5 of the bytes, highest first, filled up with zeros |
| Base64Bits.PadExactly | lora_pkt_fwd/src/base64.c:251-287 | the padded text ends in one equals sign for each byte missing in the last group |
| Base64Bits.DecodedExactly | lora_pkt_fwd/src/base64.c:172-249 | byte k of a decoded text is made of bits 8k to 8k+7 of the places of its characters in the alphabet |
| Base64Bits.DecodeOutcome | lora_pkt_fwd/src/base64.c:172-249 | which texts fail, and that the process ends exactly on a character outside the alphabet |
| Base64.BinToB64NoPad | lora_pkt_fwd/src/base64.c:98-170 | return value, text and terminator, and what is left alone |
| Base64.BinToB64 | lora_pkt_fwd/src/base64.c:251-287 | a non-empty input succeeds exactly when four characters per started block and a terminator fit |
| Base64.B64ToBinNoPad | lora_pkt_fwd/src/base64.c:172-249 | return value and bytes, or exit on a bad character |
| Base64.B64ToBin | lora_pkt_fwd/src/base64.c:289-305 | the same behind the removal of padding |
| Crc16.Compute | lora_pkt_fwd/src/lora_pkt_fwd.c:866-884 | the nested loops compute the register of the specification |
| Crc16.ChecksumIsRemainder | lora_pkt_fwd/src/lora_pkt_fwd.c:866-884 | a word is the checksum if and only if it is the remainder of the message times x^16 modulo x^16 + x^12 + x^5 + 1 |
| Crc16.ChecksumLinear | lora_pkt_fwd/src/lora_pkt_fwd.c:866-884 | the checksum is linear over XOR on messages of equal length |
| Crc16.ChecksItself | lora_pkt_fwd/src/lora_pkt_fwd.c:866-884 | a message followed by its checksum, high byte first, has checksum zero |
| Crc16.DetectsBurst | lora_pkt_fwd/src/lora_pkt_fwd.c:866-884 | messages that differ within a window of at most 16 bits have different checksums |

## Left out

* The HAL, registers, GPS, sockets, configuration parsing, statistics and logging; what the scheduler needs of them is
  a parameter.
* The upstream JSON composition with `snprintf`, the XTAL error filter in doubles, and the beacon payload fields.
* The pass-through `mem_*` functions, `start` and `stop`, the setters of marks and timeouts, `vsnprintf` in log
  writes, the example programs and the utilities.
* Overflow of `tv_sec` beyond 64 bits, of `ssize_t` sizes and of the `int` totals of the serializer.
* Allocation failures and freeing of memory in the JSON library.
* `json_validate`: its array branch compares the result with the code for success, so it contradicts its description.
* Rounding to doubles: numbers are reals, `strtod` does not round, and its spellings of infinity and NaN are not read.
* The number buffer of the measuring pass is not modelled; its `sprintf` returns the length of the text.
* JitClassC.ClassCIsAccepted: for queues whose packets lie within half a turn ahead of now, early enough that a
  transmission behind the last one ends before the counter comes round, as the wrap-around of the counter demands.
* JitThreads.QueuedArcsAreApart: for times on air up to `MAX_POST`, as `MaxPostIsExact` demands.
* JitThreads.DequeuesWhatItPeeked: for counters in a half circle between the peek and the dequeue, because outside one
  the sort at an insertion may put any packet at the index. What a dead slot holds is left open in `JitThreads`;
  `JitQueues` says it exactly.
* JsonDots.DotSet: on values; the program reaches the nested objects through pointers and changes them in place, which
  the model does not capture. `json_object_dotremove` and `json_object_clear` would only add easy members.
* JsonCompare.DeepCopy: on values, since the copy shares nothing with its original.
* JsonParse.StrToD: the library function on decimal numbers only; a hexadecimal spelling is rejected either way.
* Equality of sort results on equal counters: two queued packets never have the same counter.
