# A Dafny model of coLinux

coLinux runs a Linux kernel beside a host operating system. This project models the parts of it whose correctness rests on
loops, linked state or fixed-width arithmetic, and proves what they are for. Code that changes things step by step is a class
or a method with loops; what it computes is stated by functions, and properties of whole runs are lemmas and invariants.

| files | what they model |
|---|---|
| `Mbuf`, `IpReassembly`, `IpOutput`, `IpInput`, `IpRuns` | fragments of IP datagrams in the bundled network stack: cutting up, sorting, trimming, joining (RFC 791 section 3.2, RFC 1122 section 3.3.2) |
| `Checksum` | the Internet checksum (RFC 1071 sections 1 and 2) |
| `OutputQueues`, `OutputScheduler` | the two output queues of sessions, with downgrading and the roving pointer |
| `TcpSequence`, `TcpSend`, `TcpTurns`, `TcpLaws`, `TcpConnection` | `tcp_output` and the retransmit and persist timers, from ESTABLISHED on |
| `SocketBuffer`, `SocketIo` | the ring buffers of a socket, and the host's side of them |
| `PageMap`, `GuestViews`, `GuestMemory`, `GuestRuns` | the pseudo-physical map, its inverse, the page-table entries stored inside guest memory, copies to and from it, and whole runs of these calls |
| `TempTables` | the temporary address spaces of the passage page, two-level and PAE |
| `LifetimeState`, `Lifetime` | descriptors and monitors of the host driver and their reference counts |
| `InodeForest`, `FileSystem` | inodes of a mounted host directory, and the depth-bounded deletion of a subtree |
| `Clock`, `Utf8`, `Console` | jiffies and the 64-by-32 division, UTF-8 strings, and the move of a rectangle on the console |
| `Numbers`, `Options` | shared by the others |

Answers of the host (whether memory is to be had, what `send`, `recv`, `ip_output` and `slirp_can_output` return, which page an
allocator gives) are parameters or arbitrary choices, so that every statement holds for all of them.

Some properties turned out to hold under a condition only, which is stated exactly:

- `co_utf8_dup_to_wc` passes the number of units, and one, where the decoder takes a bound in bytes. It gives an encoded
  sequence of units back if and only if the last unit is below 0x800 (`Utf8.DupIff`).
- The jiffies of `callback_return_jiffies` lose nothing over a run if and only if, with a timer frequency below 2^32, less
  than 2^32 of them are due at every single step, however many the run returns (`Clock.DriftFree`, `Clock.ExactIff`); with a
  larger frequency, of which the code uses the low 32 bits, there is always an interval that is counted wrongly
  (`Clock.LargeFrequency`).
- The bounds check of a transfer, in 32-bit arithmetic, is the check that was meant if and only if the end of the range does
  not wrap around (`GuestMemory.Monitor.BoundsExact`; `BoundsWrap` gives such a range for every RAM of two pages or more).
  The copy then stops where there are no tables, and reports an error.
- A transfer stays inside the guest's own pages if and only if all of its range is mapped: where there is a table but no
  page, it goes to page 0 of the host (`GuestViews.StaysInside`).
- A `co_alloc_pages` that runs out of host pages leaves the map as it was, wherever that happens, if and only if no mapped
  page of the range is followed by one that is not mapped, because it frees the former too (`GuestMemory.RollbackRestores`;
  `RollbackLoses` is a map of which a page is lost).
- The length of a reassembled datagram is told rightly if and only if 16 bits can tell it (`IpReassembly.Finish`).
- The reverse map has a slot for every host page if and only if their number is a multiple of 1024
  (`GuestMemory.EveryFrameHasSlot`).

## Model

| member | source | states |
|---|---|---|
| Mbufs.Mbuf.Adj | src/colinux/user/slirp/mbuf.c:180-195 | a positive count takes that many bytes off the front, a negative one off the end, and the rest stays as it was |
| Mbufs.Mbuf.Cat | src/colinux/user/slirp/mbuf.c:127-142 | the contents of the second buffer follow those of the first, which grows when it has no room |
| Mbufs.Mbuf.Copy | src/colinux/user/slirp/mbuf.c:202-215 | a slice of another buffer is appended if there is room for it, and nothing is if not |
| IpReassembly.TrimHead | src/colinux/user/slirp/ip_input.c:287-296 | bytes that are there already are cut off the head of a fragment, which stays a slice of the datagram with the same end |
| IpReassembly.Successor | src/colinux/user/slirp/ip_input.c:279-285 | the search of a sorted list finds the first fragment that begins behind the newcomer |
| IpReassembly.TrimSuccessors | src/colinux/user/slirp/ip_input.c:304-319 | successors that are swallowed are dropped, the one that is overlapped loses its head only, and all others stay |
| IpReassembly.Link | src/colinux/user/slirp/ip_input.c:304-326 | after linking in, the list is sorted and disjoint, covers exactly what it and the newcomer covered, and no buffer is lost or used twice |
| IpReassembly.SurgeryCover | src/colinux/user/slirp/ip_input.c:287-326 | trimming against the predecessor and the successors and dropping what is swallowed changes the union of the ranges by the newcomer and nothing else |
| IpReassembly.Complete | src/colinux/user/slirp/ip_input.c:327-335 | the list passes the completeness check if and only if its ranges fill the datagram |
| IpReassembly.Join | src/colinux/user/slirp/ip_input.c:340-349 | joining a complete list gives the datagram, byte for byte |
| IpReassembly.Finish | src/colinux/user/slirp/ip_input.c:340-385 | what is handed up holds the whole datagram, with the header of the first fragment directly before it; its length field is right exactly when the length has 16 bits |
| IpReassembly.Accept | src/colinux/user/slirp/ip_input.c:239-385 | a fragment that arrives completes its datagram if and only if everything that has arrived covers it, and then goes up with the header that came with the first fragment; otherwise it waits in an orderly list; every buffer is kept, given back or handed up, once |
| IpReassembly.Reassembler.IpReass | src/colinux/user/slirp/ip_input.c:239-391 | the same for all queues: only the queue of the fragment's own datagram changes |
| IpReassembly.Reassembler.IpSlowtimo | src/colinux/user/slirp/ip_input.c:446-463 | one tick ages every queue, drops exactly those whose time is up, and gives their buffers back; queued and given back, all buffers stay the same |
| IpOutput.MakeFragment | src/colinux/user/slirp/ip_output.c:130-174 | a fragment carries the header of the datagram and the bytes of its own range, with the offset in units of 8 and the more-fragments bit on all but the last |
| IpOutput.CutRest | src/colinux/user/slirp/ip_output.c:130-177 | the fragments behind the first cut the rest of the payload without gap or overlap; this fails exactly when there are not enough buffers |
| IpOutput.TrimFirst | src/colinux/user/slirp/ip_output.c:179-184 | the datagram itself becomes the first fragment |
| IpOutput.CutPartition | src/colinux/user/slirp/ip_output.c:119-184 | the fragments together partition the payload, at offsets that are multiples of 8, with the more-fragments bit on all but the last |
| IpOutput.IpOutput | src/colinux/user/slirp/ip_output.c:56-205 | a datagram that fits is sent as it is; one that does not is sent in fragments of at most the MTU that partition it, all but the last with the largest multiple of 8 bytes that fits; and it is an error exactly when it must not be cut, when the MTU is below 28, or when it needs more such pieces than there are buffers |
| IpOutput.Chunks | src/colinux/user/slirp/ip_output.c:113-123 | the condition for cutting a datagram up, in plain numbers |
| IpInput.Input | src/colinux/user/slirp/ip_input.c:71-233 | a whole datagram goes up at once; a fragment adds its range to what waits under its key, and the datagram goes up when that is all of it |
| IpRuns.Run | src/colinux/user/slirp/ip_input.c:71-233 | over any run of fragments of any number of datagrams, interleaved in any way, what goes up and what waits is given by the ranges that have arrived |
| IpRuns.HeldIsArrived | src/colinux/user/slirp/ip_input.c:239-391 | as long as a datagram has not been delivered, what waits of it is the union of all that has arrived |
| IpRuns.FirstCompletion | src/colinux/user/slirp/ip_input.c:327-341 | the datagram goes up at the first arrival that makes the union whole, and not before |
| IpRuns.DeliveredIff | src/colinux/user/slirp/ip_input.c:239-391 | a run delivers a datagram if and only if the ranges that arrive cover it |
| IpRuns.OrderIndependence | src/colinux/user/slirp/ip_input.c:279-341 | two runs with the same fragments, in any order and with any repeats, deliver the same datagrams |
| IpRuns.AllPartsNeeded | src/colinux/user/slirp/ip_output.c:119-190 | fragments cover the datagram they were cut from if and only if every one of them has arrived |
| IpRuns.RoundTrip | src/colinux/user/slirp/ip_output.c:119-190 | what `ip_output` cuts up and `ip_input` gets, in any order with any repeats, goes up unchanged at the arrival that makes the fragments complete |
| Checksum.Reduce | src/colinux/user/slirp/cksum.c:46-47 | the two halves of a sum, added with the carry, are its value in one's-complement arithmetic |
| Checksum.SumBlocks | src/colinux/user/slirp/cksum.c:91-103 | the unrolled loops add up whole words without overflow of 32 bits and leave less than four words |
| Checksum.Cksum | src/colinux/user/slirp/cksum.c:48-141 | for every length up to 65535 and either alignment the result is the complement of the plain one's-complement sum of the words |
| Checksum.SwappedAlike | src/colinux/user/slirp/cksum.c:79-87 | summing from the second byte on and shifting back by a byte makes no difference (RFC 1071 section 2) |
| Checksum.OrderOfBytes | src/colinux/user/slirp/cksum.c:48-141 | the checksum has the same bytes in memory as one that is computed in network byte order |
| Checksum.StoredPasses | src/colinux/user/slirp/ip_output.c:102-103 | storing the checksum in a field that was zero makes the one's-complement sum 65535 |
| Checksum.EveryByteCounts | src/colinux/user/slirp/cksum.c:62-141 | every byte is in the sum, an odd last one too, with the weight of its place |
| Checksum.OneWordChanged | src/colinux/user/slirp/ip_input.c:105-108 | a change of one word of a header that passes goes unnoticed exactly when it exchanges 0 and 65535 |
| Checksum.StoreAndCheck | src/colinux/user/slirp/ip_output.c:102-103 | a header that is summed, stored and checked at any two alignments passes, and nothing else in it changes |
| OutputQueues.EnqueuedKeeps | src/colinux/user/slirp/if.c:161-242 | queueing a packet keeps every invariant: order, counters, one batch list for each socket, no packet linked twice, and a live `next_m` |
| OutputQueues.EnqueuedPending | src/colinux/user/slirp/if.c:188-240 | a packet is behind everything that its socket has queued, wherever it is linked and even when its session is downgraded |
| OutputQueues.EnqueuedQueues | src/colinux/user/slirp/if.c:188-240 | a packet joins the batch list of its socket if there is one; otherwise it ends the fast queue exactly when its socket asks for low delay, and the batch queue when not; its session goes to the front of the batch queue exactly when six were queued without a pause and three of them sent |
| OutputQueues.DowngradedPending | src/colinux/user/slirp/if.c:225-240 | moving a session to the front of the batch queue, from the fast queue or from the batch queue itself, changes the order of no socket's packets |
| OutputQueues.DowngradedNext | src/colinux/user/slirp/if.c:225-240 | `next_m` stays the sentinel or the head of a session on the batch queue when a session is moved |
| OutputQueues.SentKeeps | src/colinux/user/slirp/if.c:276-318 | sending a packet keeps every invariant |
| OutputQueues.SentPending | src/colinux/user/slirp/if.c:281-306 | the packet that is sent is the oldest that its socket has queued |
| OutputQueues.FastFirst | src/colinux/user/slirp/if.c:281-306 | as long as there is something on the fast queue it goes out, in its order, and the batch queue stays as it is |
| OutputQueues.TurnIs | src/colinux/user/slirp/if.c:287-296 | `next_m` names one session only |
| OutputQueues.RestOfRound | src/colinux/user/slirp/if.c:287-306 | from the session whose turn it is to the end of the batch queue, each sends one packet, in list order |
| OutputQueues.RoundRobin | src/colinux/user/slirp/if.c:276-321 | with nothing on the fast queue and `next_m` at the sentinel, the next sends take one packet of each session in list order and bring `next_m` back to the sentinel |
| OutputScheduler.Link.FindBatch | src/colinux/user/slirp/if.c:188-195 | the search from the tail finds the batch list of a socket, or none |
| OutputScheduler.Link.Output | src/colinux/user/slirp/if.c:161-252 | `if_output` is queueing, as the row of `EnqueuedQueues` says, and, when the link is up, as many sends as the link grants, with every invariant kept |
| OutputScheduler.Link.Start | src/colinux/user/slirp/if.c:267-322 | `if_start` sends until the link refuses or nothing is left, with every invariant kept |
| OutputScheduler.Grants | src/colinux/user/slirp/if.c:276-321 | how many packets the answers of the link let out |
| OutputScheduler.SeenInOrder | src/colinux/user/slirp/if.c:143-156 | what is on the wire of one socket is a prefix of what it queued, and all of it once the queues are empty |
| TcpSequence.Near | src/colinux/user/slirp/tcp.h:155-158 | numbers less than 2^31 apart are compared as their distances are, across the wrap-around |
| TcpSend.InsideWindow | src/colinux/user/slirp/tcp_output.c:100-168 | data that is sent lies in the buffer and in what peer and congestion window allow, but for the byte of a probe, and carries the number of its place |
| TcpSend.FinBehindData | src/colinux/user/slirp/tcp_output.c:166-167 | a FIN is behind the last byte of the buffer each time it is sent |
| TcpSend.EmittedKeeps | src/colinux/user/slirp/tcp_output.c:412-526 | sending a segment keeps snd_una <= snd_nxt <= snd_max modulo 2^32, and all between them is data of the buffer and the FIN |
| TcpSend.WithheldKeeps | src/colinux/user/slirp/tcp_output.c:256-268 | sending nothing keeps it too, and the persist timer is in its range |
| TcpSend.AdvertisedFits | src/colinux/user/slirp/tcp_output.c:438-448 | the advertised window is no more than the free space, no less than what was promised, and fits its 16 bits |
| TcpLaws.SendsIff | src/colinux/user/slirp/tcp_output.c:170-234 | all reasons to send, by distances from snd_una, and that there are no others |
| TcpLaws.DataIsSent | src/colinux/user/slirp/tcp_output.c:181-193 | when a full segment, or all that is left of the buffer, is inside the window behind snd_nxt, it is sent |
| TcpLaws.AckIsSent | src/colinux/user/slirp/tcp_output.c:217-221 | an acknowledgment that is owed is sent |
| TcpLaws.FinIsSent | src/colinux/user/slirp/tcp_output.c:226-233 | a FIN that has not been sent goes with the last of the data |
| TcpLaws.WindowIsUsed | src/colinux/user/slirp/tcp_output.c:115-195 | when all segments are taken, what is left inside the window is less than a segment and not the end of the buffer |
| TcpLaws.EmittedOffset | src/colinux/user/slirp/tcp_output.c:408-495 | a segment moves snd_nxt on by its data, and a FIN to behind all data |
| TcpLaws.SegmentSays | src/colinux/user/slirp/tcp_output.c:406-465 | every segment acknowledges rcv_nxt; its window, push and urgent bits are given, and the number of one without data or FIN |
| TcpLaws.AllAcknowledge | src/colinux/user/slirp/tcp_output.c:433 | all segments of a call acknowledge what has been received |
| TcpLaws.WindowTold | src/colinux/user/slirp/tcp_output.c:439-448 | the window is the free space that the field can tell, or none when that is too little, but never less than was promised |
| TcpLaws.NothingOwed | src/colinux/user/slirp/tcp_output.c:573-581 | when a segment has been taken no acknowledgment is owed any more |
| TcpLaws.SentIsTimed | src/colinux/user/slirp/tcp_output.c:507-525 | whatever is sent and not acknowledged is timed, by the timer that runs or from its current value |
| TcpLaws.RoundTripTimed | src/colinux/user/slirp/tcp_output.c:493-506 | the first segment of new data is timed for the estimate of the round trip, and nothing else is |
| TcpLaws.ProbeIsSent | src/colinux/user/slirp/tcp_output.c:115-140 | the probe of a closed window is the byte behind snd_una |
| TcpLaws.DataWaits | src/colinux/user/slirp/tcp_output.c:257-268 | data that is not sent waits for an acknowledgment or for the next probe |
| TcpSend.AcknowledgedKeeps | src/colinux/user/slirp/tcp_output.c:578-581 | rcv_adv never moves back, and rcv_adv - rcv_nxt never exceeds the free space of so_rcv |
| TcpSend.AgainShrinks | src/colinux/user/slirp/tcp_output.c:162-165 | each repeat of the send loop has a full segment less to send |
| TcpSend.SameBackoff | src/colinux/user/slirp/tcp_output.c:257-260 | while the retransmit timer runs, output that is not forced leaves the back-off and the segment size alone |
| TcpSend.RetriedKeeps | src/colinux/user/slirp/tcp_timer.c:166-263 | an expiry that does not drop the connection goes back to snd_una with one segment of window, keeps every invariant and restarts the timer |
| TcpLaws.RetriedBacksOff | src/colinux/user/slirp/tcp_timer.c:208-211 | an expiry sets the timer to the estimate times 1, 2, 4 and so on up to 64, within its range |
| TcpLaws.BackoffDoubles | src/colinux/user/slirp/tcp_timer.c:208-211 | from one expiry to the next the timer doubles until its range or the seventh retransmission stops it, and never becomes shorter |
| TcpLaws.RetriedEstimate | src/colinux/user/slirp/tcp_timer.c:219-223 | the estimate stays, also when it becomes a variation |
| TcpLaws.RetriedRestarts | src/colinux/user/slirp/tcp_timer.c:224-261 | sending begins again at snd_una with one segment; the threshold is half the window in whole segments, but two at least |
| TcpLaws.PersistBacksOff | src/colinux/user/slirp/tcp_output.c:588-605 | the persist timer is half of the estimate's mean times 1, 2, 4 and so on up to 64, within its range |
| TcpSend.ExpiriesAre | src/colinux/user/slirp/tcp_timer.c:172-206 | how many expiries it takes to drop a connection: 13 less the shift, and 7 for each time that the segment size can be halved down to 32 |
| TcpTurns.TurnsKeep | src/colinux/user/slirp/tcp_output.c:100-583 | any number of repeats, with any answers of the host, keeps every invariant and moves the edge of the receive window only forward |
| TcpTurns.OnePiece | src/colinux/user/slirp/tcp_output.c:100-583 | all data that one call sends is one piece of the buffer from snd_nxt on, inside the window |
| TcpTurns.AllCarried | src/colinux/user/slirp/tcp_output.c:340-432 | every segment carries the bytes of the stream that its sequence number names |
| TcpTurns.TurnsBackoff | src/colinux/user/slirp/tcp_output.c:100-583 | output after an expiry leaves the count of retransmissions alone |
| TcpConnection.Connection.Decide | src/colinux/user/slirp/tcp_output.c:102-233 | the step-by-step decision is the one of `SendsIff` and the other laws |
| TcpConnection.Connection.SetPersist | src/colinux/user/slirp/tcp_output.c:588-605 | the persist timer is backed off within its bounds, and the table is never read beyond its end |
| TcpConnection.Connection.Emit | src/colinux/user/slirp/tcp_output.c:270-526 | building and recording a segment, step by step |
| TcpConnection.Connection.Output | src/colinux/user/slirp/tcp_output.c:70-586 | the call terminates, keeps every invariant, and everything ever sent carries the stream |
| TcpConnection.Connection.RexmtTimeout | src/colinux/user/slirp/tcp_timer.c:166-263 | an expiry drops the connection exactly when it has backed off fully and the segment size cannot be halved, and what it leaves then; the table of back-offs is never read beyond its end |
| TcpConnection.Connection.Abandoned | src/colinux/user/slirp/tcp_timer.c:166-263 | without an acknowledgment every sequence of expiries drops the connection, after exactly the number that is predicted, and the timer is backed off as predicted at each of them |
| TcpTurns.TurnsWait | src/colinux/user/slirp/tcp_output.c:102-526 | as long as the retransmit timer runs, a call of output leaves the count of retransmissions and the segment size alone, and the timer running, also with a closed window |
| TcpConnection.Connection.Unacknowledged | src/colinux/user/slirp/tcp_timer.c:166-263 | in any run without acknowledgments, with output, writing, reading, arriving data and closing between the expiries, the connection is dropped at exactly the predicted expiry; with an open window every run with that many expiries ends so |
| TcpConnection.Connection.PersistTimeout | src/colinux/user/slirp/tcp_timer.c:265-275 | the probe of a closed window is one forced call of output, and every invariant is kept |
| TcpConnection.Connection.Receive | src/colinux/user/slirp/tcp_input.c:611-619 | data inside the window of `tcp_input` fits the receive buffer |
| TcpConnection.Connection.AckArrives | src/colinux/user/slirp/tcp_input.c:1154-1284 | an acknowledgment of data, or of the FIN behind it, keeps every invariant; the timer runs on while something is outstanding, and stops when nothing is |
| SocketBuffer.RingAppend | src/colinux/user/slirp/sbuf.c:136-168 | bytes behind the last one, with wrap-around, are appended |
| SocketBuffer.Sbuf.Append | src/colinux/user/slirp/sbuf.c:136-168 | given room, the contents are those from before and the new bytes |
| SocketBuffer.Sbuf.Copy | src/colinux/user/slirp/sbuf.c:175-200 | a slice inside the contents is copied exactly, across the wrap-around |
| SocketBuffer.Sbuf.Drop | src/colinux/user/slirp/sbuf.c:25-41 | the first bytes are gone, at most all of them |
| SocketIo.Socket.SbAppend | src/colinux/user/slirp/sbuf.c:74-130 | what is sent at once and what waits in the ring are all bytes appended, in order, and nothing overtakes what waits |
| SocketIo.Socket.SoWrite | src/colinux/user/slirp/socket.c:292-380 | what the host accepts leaves the ring in order, however much it is, with one send or two |
| SocketIo.Socket.Wanted | src/colinux/user/slirp/socket.c:110-149 | the two pieces ask for all the room there is, or for the most whole segments that fit it, and lie inside the free part of the ring |
| SocketIo.Socket.SoRead | src/colinux/user/slirp/socket.c:92-196 | what the host gives is appended to the ring, exactly as much as the two reads return |
| GuestMemory.SplitByPages | src/colinux/kernel/pages.c:69-94 | the parts are non-empty, lie inside a page each, and partition the range |
| PageMap.PokeGives | src/colinux/kernel/pages.c:285-318 | writing into the page behind an address changes exactly those bytes of the guest's view |
| PageMap.PokeWord | src/colinux/kernel/pages.c:228-262 | a page-table entry that is written is read back, and all others stay |
| GuestMemory.LinkedKept | src/colinux/kernel/pages.c:341-434 | map, inverse map and page tables agree, also on the entries of pages that have been freed, as long as what links them is left alone |
| GuestMemory.Monitor.CreateTables | src/colinux/kernel/monitor.c:853-890 | room for the entry of every page of RAM, in whole tables and a partial one |
| GuestMemory.Monitor.AllocAndMap | src/colinux/kernel/pages.c:341-399 | a page that is mapped gets a frame of its own, its reverse entry and its page-table entry; no other mapped byte of the guest changes, those of the page tables included |
| GuestMemory.Monitor.FreeAndUnmap | src/colinux/kernel/pages.c:402-434 | all three are cleared and the frame is given back once; no other mapped byte of the guest changes |
| GuestMemory.Monitor.AllThreeAgree | src/colinux/kernel/pages.c:341-434 | after any run: a mapped page has its frame in its page-table entry, which is present and writable, and itself in the reverse entry; a page that has been freed has entry 0; a frame that is not in the map has reverse entry 0; the frames taken from the host are those in the map |
| GuestMemory.Monitor.FreePages | src/colinux/kernel/monitor.c:451-461 | exactly the pages of the range are unmapped, and every other byte stays |
| GuestMemory.Monitor.AllocPages | src/colinux/kernel/monitor.c:463-481 | either all pages of the range are mapped, or the allocation fails at one that was not, and those before it are freed, mapped before or not; every byte that is mapped before and after stays |
| GuestMemory.RollbackRestores | src/colinux/kernel/monitor.c:463-481 | wherever it may fail, the map is restored, exactly when no mapped page of the range is followed by one that is not mapped |
| GuestMemory.RollbackLoses | src/colinux/kernel/monitor.c:463-481 | a map with one page, which an allocation of two pages that fails does not restore |
| GuestMemory.Monitor.CopyRegion | src/colinux/kernel/pages.c:285-335 | exactly the bytes of the range change, to the data or to zeros; pages that are not there are provided, and no others; it stops at the first that cannot be |
| GuestMemory.Monitor.HostToGuest | src/colinux/kernel/transfer.c:66-147 | exactly the bytes [to, to + n) of the guest's view change, to what the host holds; it succeeds exactly when the range passes the check and has tables, and otherwise stops at the first address without one; what is not mapped goes to host page 0 |
| GuestMemory.Monitor.GuestToHost | src/colinux/kernel/transfer.c:66-147 | the bytes of the guest's view are what the host gets, for every range that the check lets pass |
| GuestMemory.Monitor.BoundsExact | src/colinux/kernel/transfer.c:80-88 | the 32-bit check accepts a range outside RAM exactly when its end wraps around into RAM |
| GuestMemory.Monitor.BoundsWrap | src/colinux/kernel/transfer.c:80-88 | such a range, for every RAM of two pages or more |
| GuestViews.StaysInside | src/colinux/kernel/transfer.c:90-105 | host page 0 is left alone, whatever is copied, exactly when every byte of the range is mapped |
| GuestRuns.CopyThere | src/colinux/kernel/transfer.c:137-147 | what is copied to mapped pages of the guest is read back unchanged |
| GuestRuns.Execute | src/colinux/kernel/transfer.c:66-147 | every call of allocation, freeing, region copy and transfer changes the guest's RAM, and answers, as it would a flat array of bytes |
| GuestRuns.Run | src/colinux/kernel/transfer.c:66-147 | any run of these calls is a run of the flat array that RAM was at the start |
| GuestRuns.LastWrite | src/colinux/kernel/pages.c:286-335 | in a run of the flat array a byte that was written stays until it is written again or its page is freed |
| GuestRuns.ReadBack | src/colinux/kernel/transfer.c:137-147 | in any run a copy to the host gives the bytes that were written last |
| TempTables.SamePage | src/colinux/arch/i386/mmu.h:36-48 | two addresses are in one page exactly when all their table indices agree, in both layouts |
| TempTables.NormalSpace.ShortInit | src/colinux/arch/i386/passage.c:561-602 | a walk maps exactly the two pages to the passage page, with one shared table or with two |
| TempTables.NormalSpace.NormalInit | src/colinux/arch/i386/passage.c:613-636 | the same for a page and its physical address, whatever slots they share |
| TempTables.PaeSpace.PaeInit | src/colinux/arch/i386/passage.c:638-671 | the same for the three levels of PAE |
| LifetimeState.OpenedKeeps | src/colinux/kernel/manager.c:180-217 | a new descriptor keeps all counts exact and nothing dangling |
| LifetimeState.CreatedKeeps | src/colinux/kernel/manager.c:403-418 | so does a new monitor |
| LifetimeState.AttachedToKeeps | src/colinux/kernel/manager.c:448-456 | so does one more descriptor that points at a monitor |
| LifetimeState.SlotSetKeeps | src/colinux/kernel/manager.c:471-478 | so does a module slot that is given away with a reference |
| LifetimeState.DeliveryBegunKeeps | src/colinux/kernel/manager.c:247-260 | so does the reference of a delivery |
| LifetimeState.RefDroppedKeeps | src/colinux/kernel/manager.c:262-276 | so does a reference that is counted down |
| LifetimeState.DetachedKeeps | src/colinux/kernel/manager.c:219-228 | so does a descriptor that lets its monitor go |
| LifetimeState.CountedDownKeeps | src/colinux/kernel/monitor.c:1287-1311 | so does a monitor that is counted down and freed with the last |
| LifetimeState.FreedKeeps | src/colinux/kernel/manager.c:235-245 | so does a descriptor that is freed: nothing refers to it any more |
| LifetimeState.LastOne | src/colinux/kernel/monitor.c:1307-1310 | a monitor is freed only when it is off the list, has no slots left and nobody points at it |
| Lifetime.Manager.Close | src/colinux/kernel/manager.c:262-276 | counting down a descriptor, and all that follows from it, terminates and keeps every invariant |
| Lifetime.Manager.RefDown | src/colinux/kernel/monitor.c:1287-1311 | an owner that lets go takes its monitor off the list and ousts all modules; others only count down |
| Lifetime.Manager.SendEnd | src/colinux/kernel/monitor.c:1262-1278 | no slot of the monitor holds anybody afterwards |
| Lifetime.Manager.Open | src/colinux/kernel/manager.c:180-217 | a descriptor with one reference, its open handle |
| Lifetime.Manager.Create | src/colinux/kernel/manager.c:403-420 | a monitor that is listed, with one reference and the descriptor as its owner; refused to a descriptor that has one; nothing else changes |
| Lifetime.CreateAndAttach | src/colinux/kernel/manager.c:403-486 | a monitor that has been created can be attached to: both point at it, it has two references, and it belongs to who created it |
| Lifetime.Manager.Attach | src/colinux/kernel/manager.c:442-486 | a listed monitor is found, the slots asked for hold the descriptor, and who sat there is counted down |
| Lifetime.Manager.IoctlClose | src/colinux/kernel/monitor.c:1446-1451 | a descriptor lets its monitor go and stays open |
| Lifetime.Manager.DeactiveAndClose | src/colinux/kernel/manager.c:278-302 | a closed handle leaves the modules of its monitor and gives up its own reference |
| Lifetime.Manager.BeginDelivery | src/colinux/kernel/monitor.c:551-562 | a delivery holds whoever sits in the slot, who is never on the way out, by one more reference |
| Lifetime.Manager.EndDelivery | src/colinux/kernel/monitor.c:563-569 | and gives the reference up when the message is sent |
| Lifetime.AliveIffReferenced | src/colinux/kernel/manager.c:180-302 | between calls a descriptor is alive exactly when a handle, a slot or a delivery holds it, a monitor exactly when a descriptor points at it, and the counts are those numbers; a monitor is listed exactly when its owner has it |
| Lifetime.OwnedAlike | src/colinux/kernel/monitor.c:1262-1311 | ownership is passed down from older monitors to younger ones, so that who is ousted in the end does not depend on the order |
| Lifetime.OneOutcome | src/colinux/kernel/manager.c:219-302 | what is freed and which slots are emptied by a close is determined: there is one outcome only |
| InodeForest.SubtreeIsBelow | src/colinux/kernel/filesystem.c:50-53 | the subtree of an inode is everything from which parent pointers lead to it |
| InodeForest.FreedOrDeferred | src/colinux/kernel/filesystem.c:112-129 | what one pass does not free is left for later, with everything below it, and nothing else is |
| InodeForest.FreedIsShallow | src/colinux/kernel/filesystem.c:112-129 | a pass frees exactly what is not below level 5 |
| InodeForest.PrunedGrown | src/colinux/kernel/filesystem.c:97-110 | without a subtree the other inodes still hang together as before |
| FileSystem.UnlinkedClears | src/colinux/kernel/filesystem.c:97-110 | an inode is taken off the flat list, its own hash bucket and no other, and counted once |
| FileSystem.FileSystem.InoNumToInode | src/colinux/kernel/filesystem.c:14-33 | the hash finds the inode with a number, if there is one |
| FileSystem.FileSystem.FreshNumber | src/colinux/kernel/filesystem.c:45-48 | the search for a number ends with one that no inode has |
| FileSystem.FileSystem.AllocInode | src/colinux/kernel/filesystem.c:35-76 | a new inode is at the end of every list it belongs to, with a number of its own |
| FileSystem.FileSystem.FreeChildren | src/colinux/kernel/filesystem.c:112-129 | one pass frees exactly the inodes down to level 5, leaves the trees below them for later, and never goes deeper than level 6 |
| FileSystem.FileSystem.FreeWithChildren | src/colinux/kernel/filesystem.c:131-149 | for a subtree of any height exactly the inode and its descendants are freed, once each, and are off the flat list and the hash; the count is lowered by their number; all other inodes stay; it terminates |
| FileSystem.FileSystem.InodeForget | src/colinux/kernel/filesystem.c:151-157 | the same by number; a number that no inode has changes nothing |
| Clock.Div64By32 | src/colinux/common/common.h:41-72 | quotient and remainder for every 64-bit dividend and non-zero base, without overflow |
| Clock.Unique | src/colinux/common/common.h:57-68 | the digits that are found are those of the quotient |
| Clock.Monitor.ReturnJiffies | src/colinux/kernel/monitor.c:371-388 | the jiffies of one timestamp; one that is not later changes nothing |
| Clock.Monitor.Run | src/colinux/kernel/monitor.c:371-388 | the jiffies of a run over any timestamps, some of them behind the one before; freq * jiffies + reminder is the reminder from before and 100 * the time passed exactly when every single step is small |
| Clock.DriftFree | src/colinux/kernel/monitor.c:371-388 | over a run of any length no time is made up, and none is lost exactly when less than 2^32 jiffies are due at every step |
| Clock.FrequentIsSmall | src/colinux/kernel/monitor.c:371-388 | so no time is lost when every timestamp is less than 2^32 - 1 jiffies ahead of the one before |
| Clock.ExactIff | src/colinux/kernel/monitor.c:380-387 | with a 32-bit frequency nothing is lost exactly when less than 2^32 jiffies are due at once |
| Clock.LargeFrequency | src/colinux/kernel/monitor.c:381 | with a larger one there is an interval that is counted wrongly |
| Utf8.WcToMb | src/colinux/common/unicode.c:76-102 | the table-driven encoder writes the encoding of a unit, when there is room for it |
| Utf8.MbToWc | src/colinux/common/unicode.c:47-74 | the table-driven decoder finds the sequence that the first byte announces, if it is well-formed, not too long and inside the bound |
| Utf8.DecodeEncode | src/colinux/common/unicode.c:47-102 | decoding an encoded unit gives it back, exactly when the bound covers it |
| Utf8.DecodedIsEncoded | src/colinux/common/unicode.c:47-74 | one, two or three bytes are decoded exactly when they are the encoding of a unit, so that nothing longer than need be is |
| Utf8.EncodingIs | src/colinux/common/unicode.c:76-102 | encodings have the form of section 3 of RFC 3629 |
| Utf8.CharsAre | src/colinux/common/unicode.c:149-180 | `co_utf8_mbstowcs` gives a sequence back when `maxlen` is at least its number of bytes |
| Utf8.CharCountIs | src/colinux/common/unicode.c:104-135 | `co_utf8_mbstrlen` recovers the number of units |
| Utf8.BytesAre | src/colinux/common/unicode.c:182-217 | `co_utf8_wcstombs` writes the whole encoding when there is room |
| Utf8.ByteCountIs | src/colinux/common/unicode.c:219-244 | `co_utf8_wctowbstrlen` counts its bytes |
| Utf8.WcsToMbs | src/colinux/common/unicode.c:182-217 | never more than `maxlen` bytes are written, with the terminator; what does not fit is a question mark |
| Utf8.RoundTrip | src/colinux/common/unicode.c:104-244 | counted, encoded, counted again and decoded, every sequence of non-zero units comes back |
| Utf8.DupIff | src/colinux/common/unicode.c:246-268 | decoding with the number of units and one as the bound gives the units back exactly when the last one is below 0x800 |
| Utf8.DupToWc | src/colinux/common/unicode.c:246-268 | for an encoded sequence the size is the number of units, and they come back exactly when the last one is below 0x800 |
| Console.IndexOnce | src/colinux/common/console.c:249-251 | no two cells of the screen are in the same place |
| Console.RowMove | src/colinux/common/console.c:249-251 | a move of cells in the buffer is a move within rows |
| Console.Screen.BMove | src/colinux/common/console.c:238-266 | however source and destination overlap, the result is that of copying from a snapshot, and all other cells stay |

## Left out

- Addresses of mbufs: `dtom`, headers laid over data, finding the header again in a buffer that has grown, and the free and used lists of `m_get` and `m_free`; buffers are objects with offset, length and data.
- `m_get` failing in `ip_reass`: the queue header is always to be had.
- Fragments that are not slices of one datagram, or that contradict each other: the reassembly is proved for consistent non-empty slices, shorter than MINCSIZE, of datagrams whose rebuilt length fits in 16 bits (`CutFrom` and `Arriving` say so); what a longer one is told to be is in `Finish`.
- Mbufs.Mbuf.Cat: not for a second buffer longer than both the room that is left and MINCSIZE, which the source copies past the end of the block.
- ICMP answers, IP options, and the protocols that datagrams go up to.
- Sockets that are freed while packets of theirs are queued.
- TCP before ESTABLISHED, option building, `tcp_input` but for the parts cited, the contents of urgent data, the keep-alive and 2MSL timers, and the counters of `tcpstat`.
- Sequence numbers more than 2^31 apart, and buffers of 2^30 bytes or more.
- TcpConnection.Connection.RexmtTimeout: what `tcp_drop` does to the connection that it ends.
- TcpConnection.Connection.AckArrives: the new windows and the back-off are whatever the caller says, because they come from the segment and from the round-trip estimate, which are not part of this model.
- TcpConnection.Connection.Receive: is proved as long as less than 2^30 bytes run ahead of what was advertised, which is what comparison modulo 2^32 needs.
- Real errors of a socket other than that nothing was accepted: the effect of a disconnection on the connection.
- `sosendoob` and urgent data in the ring buffers.
- Freeing all guest memory at once, the reversed page directories, and addresses outside RAM given to allocation, freeing and region copies.
- GuestMemory.Monitor.WritePte: one page-table entry at a time; a region of several entries in one call is not modelled.
- The code that switches between host and guest, and everything that the processor does besides walking page tables; physical addresses of the passage page above 4 GB.
- Mutexes and their order: each call into the host driver is one step. A slot that changes hands is emptied before its holder is counted down, and a descriptor lets go of its monitor before that is counted down, where the source does it afterwards under a lock.
- Lifetime.Manager.Attach: not by a descriptor that has a monitor already, which the source forgets without counting it down, and not for module numbers beyond the array, which the source does not refuse.
- Allocation failures in the host driver, the resetting of a monitor by the user, debug sections, and the queues of messages themselves, with their end-of-file marks.
- FileSystem.FileSystem.InoNumToInode: not for negative numbers, which the source would use as an index.
- FileSystem.FileSystem.InodeForget: not for the root inode, which the source would free while still pointing at it, and not for negative numbers, which the source would use as an index.
- Inode numbers wrap around at no point; names, directory contents, and moving an inode to another parent.
- A timer frequency that is a multiple of 2^32, for which the source divides by zero.
- Utf8.DupToWc: allocation; otherwise as the source.
- Console operations other than the move of a rectangle, the message formats, and the consoles of the host.
- Raw sockets, name lookup, process spawning, ARP, BOOTP, video, SCSI and block devices, configuration and command line, and printing.
