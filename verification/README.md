# Verification of the NFP queue macros and example dispatchers

A Dafny model of the stateful parts of NFP whose source is in the repository,
and proofs of what they keep over every input and every run.

| file | models |
|---|---|
| `QueueRuns.dfy` | what runs of queue operations mean, without pointers |
| `TailQueue.dfy`, `TailQueueRuns.dfy` | the doubly linked tail queue, alone and in whole runs over many queues |
| `BucketList.dfy`, `BucketRuns.dfy` | the doubly linked list, with an array of heads used as hash buckets, and its runs |
| `SinglyTailQueue.dfy`, `SinglyRuns.dfy` | the singly linked tail queue and its runs |
| `PacketVector.dfy`, `DirectDispatch.dfy` | the packet vector and the direct-mode receive workers |
| `TcpPerf.dfy` | the two receive functions and the packet counters of the performance test |
| `Classifier.dfy` | the dispatcher and the termination thread of the classifier, interleaved |
| `PowerWorker.dfy` | idle detection and interrupt switching of the power-saving worker |
| `WorkerSetup.dfy` | core validation, receive queue assignment, transmit queue selection |
| `WebServer.dfy` | the connection table and the select and epoll servers |
| `InterfaceSyntax.dfy`, `InterfaceParser.dfy` | the interface list argument: meaning, printing, in-place parsing, ownership |
| `SendLoops.dfy` | `writev` and `sendfile64` over partial sends |
| `Sequences.dfy`, `Groups.dfy`, `Common.dfy` | shared vocabulary |

`dafny verify dfyconfig.toml` checks the whole project.

## How it is modelled

A C pointer to a next field is a `Cell`: the first word of a head or the next
word of an element. Heads and elements are heap objects, and each head has a
ghost sequence of its elements. The macros that take no head get the owning
queue as a ghost parameter only.

Every loop that talks to the outside world takes an environment that answers
each call from the number of calls made before it. All environments are
covered, within these contracts:

- a loop whose flag is never cleared is not modelled: from some call on the processing flag is false (`Stops`);
- a send accepts at most what it is offered, and is not refused forever (`Progress`);
- a close is not refused forever, an accept never returns a descriptor in use, and a select or epoll report names only what was registered;
- a channel send accepts a prefix of the vector, or returns a negative code;
- every packet the classifier's scheduler returns has a whole UDP header inside its data at the transport offset (`HasHeader`), whatever its length field says;
- the local clock of the power worker does not run backwards (`Monotone`), and its interrupts are off when it starts;
- a file read returns an error, end of file at the end only, or at least one byte.

The classifier is a state machine whose labels are the steps of its two
threads; a sequence of labels is one interleaving.

Where the code does not do what one would expect, the model follows the code:

- `rx_multi_api` returns at the first receive error and leaves the packets of its partly filled vector undelivered. `TcpPerf.RxMultiApi` says exactly when it delivers what `rx_single_api` delivers, and `TcpPerf.LossyRun` calls both on an input that loses a packet.
- A channel send that fails with a code below -1 makes the first index to free wrap to 16 bits, and packets are neither sent nor freed. `Classifier.SendLoses` gives the exact condition and `Classifier.LosingRun` an interleaving that loses a packet.
- When the entry array cannot be allocated, the parser's cleanup reads through a null pointer. `InterfaceParser.Params.ParseInterfaces` says exactly when, and `InterfaceParser.RefusedArray` is such a call.
- A second list parsed into parameters that still own one forgets the first. `InterfaceParser.Params.ParseThenCleanup` says that its blocks stay allocated exactly when the new argument is not empty, and `InterfaceParser.RepeatedOption` is such a pair of calls.
- `validate_cores_settings` accepts a negative first core. `WorkerSetup.ValidateCoresSettings` says that the workers are on existing cores exactly when the first core is not negative, and `WorkerSetup.NegativeStart` is such a call.
- `sendfile64` does not clip its last chunk, so it can send up to 1023 bytes more than asked for. `SendLoops.SendsNoMore` says when no environment can make that happen, and `SendLoops.Overshoot` is for every other file, offset and count a call that sends a byte too many.
- After an error `sendfile64` leaves the file position where the copy stopped. `SendLoops.LeavesPosition` says when no error can move the position, and `SendLoops.MovedByOffset` and `SendLoops.MovedByReading` are for all other arguments calls whose error moves it.
- An epoll connection whose receive fails is removed from the epoll set and keeps its slot until shutdown. `WebServer.Server.WebserverEpoll` says so of every run, `WebServer.FreedExactly` that the slot is freed exactly when the receive did not fail, and `WebServer.FailingReceive` is such a sequence of calls.

## Model

| member | source | states |
|---|---|---|
| `TailQueue.TailQ.Init` | include/api/nfp_queue.h:542-546 | the invariant holds from any earlier state, with no elements |
| `TailQueue.TailQ.InsertHead` | include/api/nfp_queue.h:573-584 | invariant kept, element in front, only the head, the old first element and the new one touched |
| `TailQueue.TailQ.InsertTail` | include/api/nfp_queue.h:586-594 | invariant kept, element at the end, through the last cell whether it is in the head or an element |
| `TailQueue.TailQ.InsertAfter` | include/api/nfp_queue.h:548-561 | invariant kept, element inserted right after the given one |
| `TailQueue.TailQ.InsertBefore` | include/api/nfp_queue.h:563-571 | without a head, the queue that holds the element gets the new one right before it, even at its first element |
| `TailQueue.TailQ.Remove` | include/api/nfp_queue.h:604-620 | invariant kept, exactly that element gone, only its neighbours and the head touched |
| `TailQueue.TailQ.Concat` | include/api/nfp_queue.h:507-516 | the sequences are appended, the second queue is empty, both invariants hold in every empty/non-empty combination |
| `TailQueue.TailQ.Swap` | include/api/nfp_queue.h:622-637 | the sequences are exchanged, back links and last cells re-aimed, also when both heads are the same |
| `TailQueue.TailQ.Last` | include/api/nfp_queue.h:596-597 | reading an entry as a head gives the final element, or null when empty |
| `TailQueue.TailQ.Prev` | include/api/nfp_queue.h:601-602 | reading an entry as a head gives the predecessor, or null for the first element |
| `TailQueue.TailQ.Foreach` | include/api/nfp_queue.h:522-525 | terminates and visits exactly the sequence |
| `TailQueue.TailQ.ForeachReverse` | include/api/nfp_queue.h:532-535 | terminates and visits exactly the reverse |
| `TailQueue.TailQ.ForeachSafe` | include/api/nfp_queue.h:527-530 | with any chosen subset removed on the way, every original element is visited once in order and exactly the others remain, in order |
| `TailQueue.TailQ.ForeachReverseSafe` | include/api/nfp_queue.h:537-540 | the same for the reverse walk |
| `QueueRuns.ApplyKeepsSeparate` | include/api/nfp_queue.h:507-637 | no operation links an element twice, in one queue or in two |
| `QueueRuns.ApplyPlaces` | include/api/nfp_queue.h:507-637 | each operation puts its element at the head, at the tail, right after or right before the named one, removal takes out that element only, and the order of all other elements and all other queues stay |
| `TailQueueRuns.Step` | include/api/nfp_queue.h:507-637 | one operation on a group of queues changes the sequences as named, keeps every invariant and every other queue |
| `TailQueueRuns.Run` | include/api/nfp_queue.h:507-637 | any legal run over any number of queues keeps all invariants and ends in the sequences the run means |
| `QueueRuns.RunMembers` | include/api/nfp_queue.h:507-637 | over any run an element is linked exactly when the commands that name it say so: none is lost or invented |
| `BucketList.Bucket.InsertHead` | include/api/nfp_queue.h:420-426 | invariant kept, element in front |
| `BucketList.Bucket.InsertAfter` | include/api/nfp_queue.h:403-410 | without a head, the owning list gets the element right after the given one |
| `BucketList.Bucket.InsertBefore` | include/api/nfp_queue.h:412-418 | without a head, the owning list gets the element right before the given one |
| `BucketList.Bucket.Remove` | include/api/nfp_queue.h:430-441 | without a head, the owning list loses exactly that element |
| `BucketList.Bucket.Swap` | include/api/nfp_queue.h:443-451 | the lists are exchanged and the first elements point back at their new heads |
| `BucketList.TableInsertBefore` | include/api/nfp_queue.h:412-418 | in a table of buckets only the unknown owner changes, every bucket stays sound |
| `BucketList.TableRemove` | include/api/nfp_queue.h:430-441 | in a table of buckets only the unknown owner changes, every bucket stays sound, and the element is held nowhere |
| `BucketList.TableRemoveAll` | include/api/nfp_queue.h:430-441 | removing any elements from unknown buckets leaves in each bucket exactly its other elements, in order |
| `BucketRuns.Run` | include/api/nfp_queue.h:403-451 | any legal run of list operations over a table of buckets, most of them without a head, keeps all invariants and ends in the sequences the run means |
| `SinglyTailQueue.SinglyTailQ.Init` | include/api/nfp_queue.h:268-271 | the invariant holds from any earlier state, with no elements |
| `SinglyTailQueue.SinglyTailQ.InsertHead` | include/api/nfp_queue.h:279-283 | invariant kept, element in front |
| `SinglyTailQueue.SinglyTailQ.InsertTail` | include/api/nfp_queue.h:285-289 | invariant kept, element at the end |
| `SinglyTailQueue.SinglyTailQ.InsertAfter` | include/api/nfp_queue.h:273-277 | invariant kept, element right after the given one, also at the end |
| `SinglyTailQueue.SinglyTailQ.RemoveHead` | include/api/nfp_queue.h:319-323 | the first element is gone, and the last cell is the head's own when nothing is left |
| `SinglyTailQueue.SinglyTailQ.RemoveAfter` | include/api/nfp_queue.h:313-317 | the successor is gone, and the last cell moves back when it was the final element |
| `SinglyTailQueue.SinglyTailQ.Remove` | include/api/nfp_queue.h:299-311 | the search from the front ends at the predecessor and exactly that element is gone |
| `SinglyTailQueue.SinglyTailQ.Concat` | include/api/nfp_queue.h:245-251 | the sequences are appended, the second queue is empty, both invariants hold |
| `SinglyTailQueue.SinglyTailQ.Swap` | include/api/nfp_queue.h:325-336 | the sequences are exchanged, and an empty queue's last cell is its own head |
| `SinglyTailQueue.SinglyTailQ.Last` | include/api/nfp_queue.h:291-295 | the final element, or null when empty |
| `SinglyRuns.Run` | include/api/nfp_queue.h:245-336 | any legal run of the macros, removal of the head and behind an element included, over any number of queues keeps all invariants and ends in the sequences the run means |
| `PacketVector.Vector.Init` | include/api/nfp_pkt_vector.h:50-57 | the vector is empty |
| `PacketVector.Vector.Add` | include/api/nfp_pkt_vector.h:59-69 | 1 and the packet in the first free position, or 0 and no change when full |
| `PacketVector.BatchBurst` | example/fpm_direct/app_main.c:200-214 | the full vectors handed over and the vector's rest are what was held and the burst, in order; adding never fails |
| `PacketVector.UnbatchHandOver` | example/fpm_direct/app_main.c:208-220 | handing vectors over means, packet by packet, delivering their concatenation |
| `DirectDispatch.EventsServedOnce` | example/fpm_direct/app_main.c:171-195 | every valid event gets exactly one call, of the kind its type asks for, in order; invalid events get none |
| `DirectDispatch.ArrivedOnce` | example/fpm_direct/app_main.c:196-206 | the arrivals of a round are packet `k` of receive `i` for all pairs of such numbers in increasing order, failed receives giving none |
| `DirectDispatch.ReceiveVectors` | example/fpm_direct/app_main.c:196-221 | the vectors of a round hold every received packet once, in order of arrival, none is empty, only the last has room, and the vector ends empty |
| `DirectDispatch.PktIoRecvSingle` | example/fpm_direct/app_main.c:90-124 | the calls of a run fall into one part for each round: one call for each valid event, one for each received packet, in order, and the transmit flush |
| `DirectDispatch.PktIoRecv` | example/fpm_direct/app_main.c:170-223 | packet by packet, the calls of every run of the batched worker are one for each valid event and each received packet of each round, in order, as the single-packet worker makes them; vectors hold 1 to 32 packets, a partial one is followed by the transmit flush, no packet is freed |
| `TcpPerf.Counters.Update` | example/tcpperf/app_main.c:147-162 | one packet raises the true total and its size class by one, and every 64-bit counter still stands for its true count |
| `TcpPerf.AfterCounts` | example/tcpperf/app_main.c:147-162 | the true count of each size class goes up by the number of packets with a length below 128, in 128 to 511, in 512 to 1023, in 1024 to 1279, or above |
| `TcpPerf.CountsPartition` | example/tcpperf/app_main.c:147-162 | every packet falls into exactly one size class |
| `TcpPerf.AfterBalanced` | example/tcpperf/app_main.c:147-162 | in every reachable state the true total is the sum of the five true classes |
| `TcpPerf.Counters.TotalIsSum` | example/tcpperf/app_main.c:147-162 | whatever has wrapped, the 64-bit total is the sum of the 64-bit classes |
| `Common.StandsFor` | example/tcpperf/app_main.c:147-162 | a counter stands for a true count exactly when it holds it modulo 2^64 |
| `TcpPerf.RxSingleApi` | example/tcpperf/app_main.c:241-261 | delivers and counts what the queues before the first failing one gave, in order; returns its code, or the number of packets when none fails |
| `TcpPerf.RxMultiApi` | example/tcpperf/app_main.c:263-304 | same result and counters; delivers all packets taken exactly when no queue fails or those before the failure fill whole vectors, else all but those of the unfilled vector; vectors are full but for the last one of a call that succeeds |
| `TcpPerf.LossyRun` | example/tcpperf/app_main.c:276-277 | called with one packet before a failing queue, the single-packet function delivers it and the batched one does not |
| `Classifier.TrimIsPayload` | example/classifier/classifier_term.c:142-155 | the 16-bit size and the two pulls leave exactly the UDP payload of RFC 768; the length is right only for well-formed packets |
| `Classifier.UdpLengthReads` | example/classifier/classifier_term.c:142-147 | a length written in network order is read back |
| `Classifier.StepKeeps` | example/classifier/classifier_main.c:194-250 | every step of either thread keeps places, arrival order, trimmed bytes and counters |
| `Classifier.ExactlyOnePlace` | example/classifier/classifier_main.c:194-250 | after every interleaving each received packet is in exactly one of burst, vector, channel, receive buffer, drained, freed, lost |
| `Classifier.RoomInVector` | example/classifier/classifier_main.c:200-248 | after every interleaving the vector holds at most 32 packets, has room when one is added and is empty between bursts |
| `Classifier.SentFull` | example/classifier/classifier_main.c:219-248 | after every interleaving a vector about to be sent is full, or the burst has no more events |
| `Classifier.RunConserves` | example/classifier/classifier_main.c:194-250 | over every interleaving the packets drained, buffered and queued are as many as the sends reported, those drained and buffered as many as the receives took, those drained one for each step, what arrived are the packets of the scheduled bursts, and all others are in the vector, in the burst, freed or lost |
| `Classifier.FramesAre` | example/classifier/classifier_main.c:196-212 | the packets of a burst are those of its events that are packets, all of them and in order |
| `Classifier.SendFrees` | example/classifier/classifier_term.c:157-170 | after a send that returns -1 or more, whatever the other thread does meanwhile, exactly the packets behind the reported number are freed, those before it are in the channel or beyond, and none is lost |
| `Classifier.ChannelIsFifo` | example/classifier/classifier_term.c:157-171 | after every interleaving drained, buffered and queued packets are in arrival order |
| `Classifier.SentIsPayload` | example/classifier/classifier_term.c:142-157 | after every interleaving each well-formed packet sent on holds exactly its UDP payload |
| `Classifier.CountersCountDrained` | example/classifier/classifier_term.c:194-208 | after every interleaving the 64-bit counters stand for the number and the total payload length of the drained packets, if those are well formed |
| `Classifier.SendLoses` | example/classifier/classifier_term.c:157-170 | a send loses packets exactly when its code is below -1 and no multiple of 2^16 |
| `Classifier.LosingRun` | example/classifier/classifier_term.c:157-170 | an interleaving from the start in which the only packet is neither sent nor freed |
| `Classifier.NothingLost` | example/classifier/classifier_term.c:157-170 | no run whose sends fail with -1 only loses a packet |
| `Classifier.AllDelivered` | example/classifier/classifier_term.c:194-208 | when the pipeline is empty and nothing was freed or lost, every packet was drained once, in arrival order |
| `Classifier.CanRunEmpty` | example/classifier/classifier_main.c:194-250 | every interleaving can be continued until the pipeline is empty: all packets in it that are not being freed are drained in order, and none more is freed or lost |
| `PowerWorker.PktinIntrSet` | example/fpm_power/app_main.c:76-88 | queues are switched in order up to the first refusal or the last queue, and success turns all of them off |
| `PowerWorker.IntrLoop` | example/fpm_power/app_main.c:90-103 | clears or waits until the first result that ends it or the flag is cleared, without polling or switching |
| `PowerWorker.PollAll` | example/fpm_power/app_main.c:221-250 | one poll per queue, a zero sum exactly when none received a packet; every packet the queues gave is handed over once, in order, in vectors of 32 but for the last |
| `PowerWorker.Sleep` | example/fpm_power/app_main.c:258-269 | clear, enable all, wait, disable all, each loop run to its end; a refusal ends it early |
| `PowerWorker.PktIoRecv` | example/fpm_power/app_main.c:220-274 | over every run each call holds what the environment answers to it; polls come in whole rounds over all queues, with all interrupts off; a round that got nothing is followed by a clock reading, a reading more than the idle time after an earlier one with only empty polls between by a whole sleep, anything else by the next round; interrupts are enabled only after more than the idle time; every packet received is handed over once and in order; the run lasts until the flag is cleared or a queue refuses a switch |
| `PowerWorker.SafeAt` | example/fpm_power/app_main.c:220-274 | what safety of a run says at each of its calls |
| `WorkerSetup.ValidateCoresSettings` | example/fpm_direct/app_main.c:560-595 | on a machine with fewer than 2^31 - 64 cores, whatever an overflowing sum yields, accepted exactly when 1 to 64 workers fit below the core count; they are on existing cores exactly when the start is not negative |
| `WorkerSetup.StartInReach` | example/fpm_direct/app_main.c:560-595 | with a start that is not negative no overflow decides the outcome |
| `WorkerSetup.NegativeStart` | example/fpm_direct/app_main.c:560-595 | a start at core -1 is accepted |
| `WorkerSetup.WorkerArgs.Configure` | example/fpm_direct/app_main.c:367-401 | succeeds exactly when every interface has one receive queue per worker; then every queue is polled by exactly one worker in one slot, and exactly one worker handles timers |
| `WorkerSetup.WorkersNeverShare` | example/fpm_direct/app_main.c:274-287 | workers on consecutive cores never use the same transmit queue |
| `WorkerSetup.NoneSharesWithCoreZero` | example/fpm_direct/app_main.c:274-287 | no worker shares with core 0 exactly when the first worker core is 1 modulo the number of queues |
| `WebServer.SafeUnshared` | example/webserver/httpd.c:154-249 | over every run no two slots hold the same descriptor |
| `WebServer.ServedWhenReported` | example/webserver/httpd.c:269-299 | a connection is read only on a report made after it was accepted, once per report |
| `WebServer.ServedBeforeNext` | example/webserver/httpd.c:269-299 | before the next report every reported connection is read and a reported listener is answered |
| `WebServer.ToldHeeds` | example/webserver/httpd.c:269-275 | in a run whose calls hold the answers of the stack, a select reports exactly what is ready of what it asked for, or nothing when it timed out or failed, and receives and accepts return what the stack gave |
| `WebServer.ReportedLive` | example/webserver/httpd.c:209-249 | over every run a descriptor that is reported and not yet read stays in the table |
| `WebServer.ClosedOnlyWhileHeld` | example/webserver/httpd.c:209-249 | after its slot is freed a descriptor is not closed unless it was accepted again |
| `WebServer.AcceptedIsClosed` | example/webserver/httpd.c:302-313 | when no slot is in use at the end, every accepted connection was closed |
| `WebServer.Server.AcceptConnection` | example/webserver/httpd.c:154-207 | the first free slot gets the new descriptor; fails exactly when the table is full or the stack refuses, and then changes nothing |
| `WebServer.Server.HandleConnection` | example/webserver/httpd.c:209-249 | reads once; a receive error keeps the slot and ends there, otherwise the descriptor is closed, after a request as often as it takes and after an end of file once, and then its slot is freed |
| `WebServer.Server.MonitorConnections` | example/webserver/httpd.c:145-152 | exactly the descriptors in use join the set |
| `WebServer.Server.ServeReady` | example/webserver/httpd.c:291-299 | nothing reported is left unserved, every connection read without error is closed and no other, and `nfds` stays the largest descriptor ever accepted |
| `WebServer.Server.Cleanup` | example/webserver/httpd.c:302-311 | every slot in use is closed and freed right after |
| `WebServer.Server.WebserverSelect` | example/webserver/httpd.c:251-316 | every select is made while the flag is set, asks for the listener and all live slots and is told the ready ones among them; each reported connection is read before the next select and each call holds what the stack answers; a connection is closed and freed right after a receive that did not fail, and only then; the loop lasts until the flag is cleared or a select fails, and then all slots and the listener are closed |
| `WebServer.Server.WebserverEpoll` | example/webserver/httpd.c:318-392 | every wait is made while the flag is set and is told the ready ones of the registered slots; every run lasts until the flag is cleared or a wait fails; slot 0 stays the listening socket until then, a connection whose receive failed keeps its slot and is not reported, read or closed until then, every other one is closed and freed right after it was read and only then, and no slot is in use at shutdown |
| `WebServer.FreedExactly` | example/webserver/httpd.c:209-249 | in the epoll loop the slot of a connection that was read is freed exactly when the receive did not fail |
| `WebServer.FailingReceive` | example/webserver/httpd.c:336-374 | a sequence of server steps in which a connection whose receive failed is reported no more and holds its slot |
| `InterfaceSyntax.JoinSegments` | example/common/cli_arg_parse.c:40-46 | the segments are the comma-free pieces, and joining them gives the argument back |
| `InterfaceSyntax.EntryMeans` | example/common/cli_arg_parse.c:71-99 | a segment is a name up to the first at sign, an address up to the first slash behind it, and a mask; without a slash it is refused |
| `InterfaceSyntax.AtoiMeans` | example/common/cli_arg_parse.c:98 | every mask text is blanks, a sign or none, digits and a rest, and stands for the number of its digits with its sign |
| `InterfaceSyntax.ParsesExactly` | example/common/cli_arg_parse.c:35-103 | a list has a meaning exactly when it is not empty and every segment with '@' has a '/' behind the first one |
| `InterfaceParser.CountTokens` | example/common/cli_arg_parse.c:40-46 | the counting pass counts the segments |
| `InterfaceParser.ParseToken` | example/common/cli_arg_parse.c:65-102 | cutting one token in place gives the entry its segment means, leaves the rest of the text whole, and owns each string once |
| `InterfaceParser.Params.Fill` | example/common/cli_arg_parse.c:63-103 | the filling pass stays inside the array and fills it with the entries the segments mean |
| `InterfaceParser.Params.ParseInterfaces` | example/common/cli_arg_parse.c:24-117 | succeeds exactly when the list has a meaning and no allocation is denied, and then there are as many entries as segments, each matching its own; a refusal frees everything allocated; the null read happens exactly when the array is refused |
| `InterfaceParser.Params.ParsePrinted` | example/common/cli_arg_parse.c:24-117 | parsing the text of a printed list succeeds and fills the array with exactly that list |
| `InterfaceParser.RefusedArray` | example/common/cli_arg_parse.c:49-55 | one name and no memory for the array lead to the null read |
| `InterfaceParser.Params.Cleanup` | example/common/cli_arg_parse.c:124-143 | frees every string and the array, and nothing when called again |
| `InterfaceParser.Params.ParseThenCleanup` | example/common/cli_arg_parse.c:24-143 | a parse, successful or failed at any point after the array was allocated, and any number of cleanups free every block of the parse exactly once; a list owned before is freed exactly when the argument is missing or empty |
| `InterfaceParser.RepeatedOption` | example/common/cli_arg_parse.c:38-46 | two lists parsed into the same parameters leave blocks of the first allocated after any number of cleanups |
| `InterfaceParser.FreedOnce` | example/common/cli_arg_parse.c:124-143 | in a safe history a block that is no longer live was freed once, and a live one never |
| `SendLoops.SentInOrder` | example/netwrap_crt/netwrap_uio.c:42-56 | in every run in which each send offers all that is at hand and not yet sent, the bytes the socket took are the beginning of what is to be sent |
| `SendLoops.FailsExactly` | example/netwrap_crt/netwrap_sendfile.c:41-82 | a run ends in failure exactly when the environment let one of its calls fail |
| `SendLoops.SendAll` | example/netwrap_crt/netwrap_uio.c:42-56 | sends the whole buffer exactly when no send fails, offering what is left each time |
| `SendLoops.Writev` | example/netwrap_crt/netwrap_uio.c:24-59 | one buffer after the other is offered from its first unsent byte to its end; on success all buffers were sent once and in order and the result is their length; on error, exactly when a send failed, a proper prefix |
| `SendLoops.Transfer.CopyChunks` | example/netwrap_crt/netwrap_sendfile.c:49-72 | a chunk is read only when the one before is sent and fewer than `count` bytes are; it ends at the first failure, at the end of the file or with `count` bytes |
| `SendLoops.Transfer.Sendfile64` | example/netwrap_crt/netwrap_sendfile.c:29-82 | fails exactly when one of its calls fails, a seek to a negative offset included, and makes none after that; on success the result is what was sent, at least `count` or to the end of the file, the offset is advanced by it and the position restored; on error the position is untouched if it could not be set, else behind what was read |
| `SendLoops.SendsNoMore` | example/netwrap_crt/netwrap_sendfile.c:49-82 | no environment makes it send more than `count` bytes when `count` is zero, the offset is invalid, or at most `count` bytes follow it |
| `SendLoops.Overshoot` | example/netwrap_crt/netwrap_sendfile.c:49-82 | for every other file, offset and count it is called so that it sends one byte more |
| `SendLoops.LeavesPosition` | example/netwrap_crt/netwrap_sendfile.c:41-82 | no error moves the position when the offset is invalid, or is the position already and there is nothing to read |
| `SendLoops.MovedByOffset` | example/netwrap_crt/netwrap_sendfile.c:41-82 | for every other offset than the position it is called so that it fails and the position is at the offset |
| `SendLoops.MovedByReading` | example/netwrap_crt/netwrap_sendfile.c:41-82 | with the position as offset and something to read it is called so that it fails and the position has moved |

## Left out

- SLIST macros, and the LIST and STAILQ traversals: they repeat in simpler form what is proved of the other lists.
- Debug tracing, link checks and link trashing of the queue macros: compiled only under a debug switch.
- Joining a tail queue with itself: the macro is meant for two queues, and its precondition here says so.
- Return codes, the processed count, drop and multi-add of the packet vector: their code is not part of the repository.
- Classifier.StepKeeps: timeouts and other events are passed over; the calls that handle or free them, and the transmit flush after a burst, are not recorded.
- Classifier.SentIsPayload: frames are shorter than 2^32 bytes, the width of a packet length.
- PowerWorker.PktIoRecv: leaves out the registration of interrupts before the loop and the transmit flush at the end of a round; what follows an empty round is stated for workers with at least one queue.
- WorkerSetup.ValidateCoresSettings: says nothing when a negative start without a count makes the C difference overflow, which C leaves undefined.
- WorkerSetup.WorkerArgs.Configure: the process exit on too few queues is an outcome, not an exit.
- InterfaceParser.Params.ParsePrinted: mask lengths are unbounded integers, the overflow of `atoi` is undefined in C.
- InterfaceParser.Params.ParseInterfaces: a null parameter pointer is not modelled.
- The POSIX termination mode and the worker dispatcher of the classifier, `pkt_io_recv_single` and `event_dispatcher` of the power example: the same shapes with less state.
- HTTP request analysis, file sending and the epoll descriptor of the web server.
- Main functions, option parsing, usage text, interface configuration, signal handling: plumbing.
- The other wrappers of `netwrap_crt`, `netwrap_proc`, the socket examples, and the dispatch loops of the other web and UDP examples.
- Everything behind the `nfp_` and `odp_` calls: the stack is not part of this model.
