# A verified model of the TCP/IP core

The C core of this repository is the lwIP stack. This project models its hard parts in
Dafny and proves what they are for. Each imperative part of the source is an imperative
model (a class with the source's fields, loops over its lists and arrays, wrapped 32-bit
arithmetic), proved against a specification on unwrapped integers; the promises are lemmas
about that specification and hold over every run.

| file | models |
|---|---|
| `SeqNum.dfy` | 32-bit sequence numbers and times, and when their comparisons are right |
| `Reassembly.dfy`, `Delivery.dfy`, `Handover.dfy` | the receive path as a state machine on stream positions: out-of-sequence queue, window, refused data, end of stream; what every step does to each of them |
| `TcpIn.dfy` | `tcp_receive`, the delivery part of `tcp_input`, `tcp_recved`, on the fields of the control block |
| `SendQueue.dfy`, `SendRuns.dfy`, `SendSteps.dfy` | the send queues: bytes, sequence space and counters over every run, with retransmitted segments that wait to be sent; what every operation does to them |
| `TcpOut.dfy` | `tcp_write`, flags, output, retransmission, window probes, splitting and ACK processing on those fields |
| `Checksum.dfy`, `ChecksumChain.dfy` | the three checksum algorithms, chains of buffers, pseudo-headers, checksum-on-copy |
| `HeapBlocks.dfy`, `HeapRuns.dfy`, `Heap.dfy` | the first-fit heap as a list of blocks, under any sequence of operations, and as linked headers in memory |
| `Pbuf.dfy` | chained packet buffers with total lengths and reference counts |
| `Sack.dfy`, `SackQueue.dfy`, `SackComplete.dfy` | the array of selective acknowledgements, that it reports only what the queue holds, and when it reports all of it |
| `TimerQueue.dfy`, `Timeouts.dfy` | the timeout list, one call of the firing loop, and many |
| `Rto.dfy` | the 16-bit round-trip estimator, back-off and retransmission timer |
| `LocalPort.dfy` | the search for a free local port |
| `Shortfalls.dfy` | inputs that reach the failures listed below |

A class keeps the source's fields and, beside them, a ghost `view`: the state of the
specification. Its methods state `view == F(old(view), ...)`. Parameters stand for what the
model cannot see: whether an allocation or a transmission succeeds, whether the application
accepts data, how long a handler takes.

## Where the code falls short

Each of these is proved as an exact condition, and has an input that reaches it: those of the
TCP queues, at states of a run, and of the packet buffers are in module `Shortfalls`, those of
`Rto` and `LocalPort` in these modules.

- A segment that ends strictly inside the queued segment in front of it cuts off that
  segment's tail (`Reassembly.InsertLosesNothingIff`).
- A segment stored out of sequence is trimmed to the window only if it goes behind the last
  queued one (`Reassembly.InsertWithin`, `Reassembly.ArriveKeepsInv`).
- Without memory for a segment that would go in front of everything queued, its bytes are
  selectively acknowledged all the same (`SackQueue.StoreTruthfulIff`).
- A SACK range that meets an older one without taking it in drops what only the older one
  reported, and a fifth range drops the oldest (`Sack.AddIsUnionIff`). So bytes that are held
  go unreported, exactly from the first segment on that leaves no room for its range or cuts
  its predecessor within a range that goes on behind (`SackComplete.StoreCompleteIff`,
  `SackComplete.RunCompleteIff`).
- While a retransmitted segment waits in the unsent list, a write or a FIN can go to a segment
  that an unacknowledged one follows, and a time-out queues the retransmitted segment behind
  those that follow it (`SendRuns.WriteKeepsIff`, `SendRuns.FinKeepsIff`,
  `SendRuns.RequeueKeepsIff`; right behind a fast retransmit `SendQueue.WriteAfterRexmitIff`
  and `SendQueue.RequeueAfterRexmitIff`).
- As long as the peer's largest window is 0 or 1, segments of a whole MSS are queued; when the
  window then opens, half of it is the limit and they may exceed it
  (`SendQueue.WidenKeepsIff`, `SendRuns.WidenSoundIff`).
- `tcp_split_unsent_seg` moves a FIN to the remainder, but the flag is set again on the head
  rather than cleared, because `TCPH_SET_FLAG` only adds flags; and it may leave a head that
  is already acknowledged (`SendQueue.SplitKeepsIff`, `SendRuns.SplitKeepsIff`).
- Round-trip samples above 4095 ticks overflow the estimator (`Rto.RunsKeepIff`); the comment
  there allows 32K.
- `pbuf_free` documents the number of pbufs released; it returns that number modulo 256
  (`PbufChain.Free`). `pbuf_take_at` refuses to write nothing at the very end of a chain
  (`PbufChain.TakeAt`). `pbuf_copy` may take a chain that ends in empty pbufs for a queue
  of packets (`PbufChain.OutcomeIff`).
- `tcp_init` may start the port search at 0xffff, from where it runs on at port 0
  (`LocalPort.PromiseIff`, `LocalPort.EndFindsNothing`).

## Model

| member | source | states |
|---|---|---|
| `SeqNum.WrappedOrder` | core/c/include/lwip/priv/tcp_priv.h:109-117 | all four sequence comparisons and TIME_LESS_THAN agree with integer order at every span up to half the space, except at exactly half of it (iff) |
| `SeqNum.WrappedDifference` | core/c/include/lwip/priv/tcp_priv.h:109-112 | the signed and the unsigned 32-bit difference are the integer difference within their ranges |
| `Reassembly.CoversMeans` | core/c/core/tcp_in.c:1663-1807 | "the queue holds position p" means that some stored segment does |
| `Reassembly.InsertHolds` | core/c/core/tcp_in.c:1067-1099 | storing a segment keeps the queue strictly sorted, disjoint, FIN last and true to the peer's stream, and holds exactly the old positions that are not cut off plus the new ones that are taken (iff, for every position) |
| `Reassembly.InsertLosesNothingIff` | core/c/core/tcp_in.c:1722-1807 | storing a segment loses no queued position if and only if it does not end strictly inside the segment in front of it |
| `Reassembly.InsertWithin` | core/c/core/tcp_in.c:1663-1807 | the queue stays inside the window exactly when the segment fits, or goes behind the last one where it is trimmed, or is not stored (iff) |
| `Reassembly.InsertIsInsertedAt` | core/c/core/tcp_in.c:1677-1807 | the recursive form of storing equals the closed form of the walk to the first segment not before the new one |
| `Reassembly.ReachIsMaximal` | core/c/core/tcp_in.c:1588-1624 | draining stops at the first position that is not queued: everything before it was, it is not, the rest lies beyond |
| `Reassembly.ReachKeeps` | core/c/core/tcp_in.c:1588-1624 | what draining leaves is still a sorted queue inside the window, and it passes neither the window nor the FIN |
| `Reassembly.ReachLeaves` | core/c/core/tcp_in.c:1588-1624 | draining keeps exactly the queued positions beyond where it stops |
| `Reassembly.ArriveKeepsInv` | core/c/core/tcp_in.c:1389-1807 | an arrival keeps the receiver's invariant if and only if it is not stored untrimmed beyond the right edge |
| `Reassembly.ArriveIsMaximal` | core/c/core/tcp_in.c:1475-1624 | in-order data moves rcv_nxt to the end of the contiguous run of what came in and what was queued, no less and no more; the right edge stays |
| `Reassembly.ArriveStores` | core/c/core/tcp_in.c:1661-1807 | a segment beyond rcv_nxt that starts in the window is queued: exactly the old positions that are not cut off and the new ones that are taken are held afterwards (iff, for every position), and rcv_nxt and the window stay |
| `Reassembly.ArriveIgnores` | core/c/core/tcp_in.c:1471-1473 | a segment of which nothing lies in the window, or that would be queued and cannot be copied, changes nothing |
| `Delivery.AnnounceKeeps` | core/c/core/tcp.c:930-956 | the announced window lies within the real one and its right edge does not move left |
| `Delivery.AnnouncedEdge` | core/c/core/tcp.c:930-956 | the announced right edge moves to the real one if and only if that is half the window or a full segment at least, and else stays (section 4.2.3.3 of RFC 1122) |
| `Delivery.HandUpKeeps` | core/c/core/tcp_in.c:488-552 | handing up received data keeps the invariant of the stream and of the window, whether the application accepts or refuses |
| `Delivery.RetryKeeps` | core/c/core/tcp.c:1539-1600 | offering refused data again keeps both invariants and takes nothing back |
| `Delivery.InputKeeps` | core/c/core/tcp_in.c:427-552 | one segment through tcp_input keeps both invariants, and moves neither right edge left nor changes what was handed up |
| `Delivery.InputDelivers` | core/c/core/tcp_in.c:1475-1624 | progress: a segment with the next byte expected is delivered at once together with all that is queued behind it |
| `Delivery.GiveBackConservesIff` | core/c/core/tcp.c:968-1003 | tcp_recved opens the window by exactly what is given back if and only if that is no more than is outstanding: received, counting an unsignalled FIN, and not given back; the window never exceeds TCP_WND |
| `Delivery.GiveBackKeeps` | core/c/core/tcp.c:968-1003 | giving back keeps both invariants and moves no right edge left |
| `Delivery.StepKeeps` | core/c/core/tcp_in.c:427-552 | every step of a connection keeps the invariants and takes nothing back |
| `Delivery.RunInv` | core/c/core/tcp_in.c:1389-1624 | in every state of every run, whatever is given up of the queue by tcp_free_ooseq: rcv_wnd plus received but unreturned bytes plus an unsignalled FIN is TCP_WND, and the queue invariant holds |
| `Delivery.RunDeliversPrefix` | core/c/core/tcp_in.c:1389-1624 | for every run of reordered, repeated, overlapping segments and refusals: accepted bytes followed by refused data are exactly the peer's stream up to rcv_nxt; the end is signalled at most once, exactly when all bytes are accepted |
| `Delivery.RunGrows` | core/c/core/tcp.c:930-1003 | along every run neither right edge moves left and nothing handed up is changed or overtaken |
| `Handover.HandUpAccepts` | core/c/core/tcp_in.c:488-552 | an application that accepts gets all the data, and the end if there is one; nothing is held |
| `Handover.HandUpRefuses` | core/c/core/tcp_in.c:519-528 | data an application refuses is held whole, with the end if there is one, and counts as unseen |
| `Handover.RetryOffers` | core/c/core/tcp.c:1539-1600 | data offered again and refused again stays; accepted, it is all that was held |
| `Handover.InputWhileRefused` | core/c/core/tcp_in.c:427-442 | a segment that comes while data is still refused changes nothing at all |
| `Handover.StepHandsUp` | core/c/core/tcp_in.c:427-552 | in every step the accepted bytes grow by exactly what was offered to an application that answered yes, and exactly what it refused is held |
| `Handover.RunHandsUp` | core/c/core/tcp_in.c:427-552 | ... in every step of every run |
| `Handover.InputStores` | core/c/core/tcp_in.c:1661-1807 | a segment beyond rcv_nxt, with nothing refused: the queue holds exactly what ArriveStores says, and nothing else of the connection changes |
| `Handover.InputIgnores` | core/c/core/tcp_in.c:1471-1473 | a segment outside of the window, or that cannot be copied, leaves the connection as it was |
| `Handover.ReclaimsQueue` | core/c/core/tcp.c:2386-2395 | giving up the queue empties it and changes nothing else |
| `Handover.StepAnnounces` | core/c/core/tcp.c:930-956 | the window is announced anew exactly when data came in sequence or was given back: to the real edge if that is worth half the window or a full segment, else as far as before; the edge told to the peer changes in transmissions only |
| `Handover.StepEdge` | core/c/core/tcp.c:968-1003 | the real edge moves by exactly what is given back, and by one for the end when it is signalled |
| `Handover.RunIsGenerous` | core/c/core/tcp.c:930-956 | in every state of every run the announced window falls short of the real one by less than half the window and less than a full segment (one more behind the end of the stream) |
| `Handover.RunTellsEdge` | core/c/core/tcp_out.c:1485-1491 | a transmission in any run tells the peer that edge, and changes nothing else |
| `Handover.RunReopens` | core/c/core/tcp.c:968-1003 | when everything received was given back, all of TCP_WND but that much is announced: the window does not stay closed |
| `TcpIn.InsertSegment` | core/c/core/tcp_in.c:1067-1099 | tcp_oos_insert_segment on wrapped sequence numbers does what Overlay does on the stream |
| `TcpIn.StoreOutOfOrder` | core/c/core/tcp_in.c:1663-1807 | the walk over the ooseq list with its four branches is Insert; a failed copy leaves the queue as it was |
| `TcpIn.Walk` | core/c/core/tcp_in.c:1686-1800 | the walk finds the first segment that does not start before the new one, and carries sackbeg along: the start of the run of bytes in front |
| `TcpIn.Record` | core/c/core/tcp_in.c:1665-1831 | the last part of storing computes the run in wrapped numbers and enters it into the array |
| `TcpIn.Absorb` | core/c/core/tcp_in.c:1506-1553 | swallowing covered segments and cutting at the next one leaves segment and queue with the same reach |
| `TcpIn.MergeInOrder` | core/c/core/tcp_in.c:1479-1553 | trimming to the window and merging: the segment lies in the window, ends where the queue goes on, and reaches what the untouched parts would reach |
| `TcpIn.TcpPcb.UpdateRcvAnnWnd` | core/c/core/tcp.c:930-956 | the announced window on wrapped numbers is Announce, with the inflation the caller gets |
| `TcpIn.TcpPcb.Drain` | core/c/core/tcp_in.c:1588-1624 | the loop over the queue hands up exactly the bytes between the old and the new rcv_nxt and ends where Reach ends |
| `TcpIn.TcpPcb.TakeInOrder` | core/c/core/tcp_in.c:1475-1624 | an in-order segment: new state, bytes and FIN flag |
| `TcpIn.TcpPcb.Receive` | core/c/core/tcp_in.c:1389-1810 | the text part of tcp_receive on wrapped numbers is Receive on the stream; bytes and GOT_FIN are exactly those of the positions passed, and the SACK array is what Arrived says |
| `TcpIn.TcpPcb.ProcessRefusedData` | core/c/core/tcp.c:1539-1600 | tcp_process_refused_data is Retry |
| `TcpIn.TcpPcb.HandUp` | core/c/core/tcp_in.c:488-552 | the delivery part of tcp_input is HandUp |
| `TcpIn.TcpPcb.Input` | core/c/core/tcp_in.c:427-552 | tcp_input for a segment of the connection is Input, keeps the invariants, and takes the SACK array through the step of a run |
| `TcpIn.TcpPcb.FreeOoseq` | core/c/core/tcp.c:2386-2395 | tcp_free_ooseq empties the queue and the SACK array, and keeps the invariants |
| `TcpIn.TcpPcb.Recved` | core/c/core/tcp.c:968-1003 | tcp_recved with its 16-bit overflow test is GiveBack for every length, clamped at TCP_WND; the invariants are kept if no more is given back than is outstanding; the inflation it returns is how far the announced edge may move |
| `TcpIn.TcpPcb.AnnounceWindow` | core/c/core/tcp_out.c:1485-1491 | a transmission records the right edge rcv_nxt plus the window it returns, and keeps the invariants |
| `SendQueue.WriteKeeps` | core/c/core/tcp_out.c:453-812 | a write appends exactly its bytes; queues tile sequence space, every segment stays within the local MSS, counters are exact |
| `SendQueue.EnqueueKeeps` | core/c/core/tcp_out.c:1032-1130 | queueing a SYN or FIN takes one sequence number and keeps the invariant |
| `SendQueue.FinKeeps` | core/c/core/tcp_out.c:1001-1020 | a FIN, piggybacked or not, takes one sequence number behind the last byte and keeps the invariant |
| `SendQueue.AckKeeps` | core/c/core/tcp_in.c:1245-1332 | an acknowledgement releases a prefix; released, queued bytes, snd_buf and snd_queuelen still add up |
| `SendQueue.OutputKeeps` | core/c/core/tcp_out.c:1237-1420 | sending moves segments between the queues without changing their concatenation |
| `SendQueue.RequeueKeeps` | core/c/core/tcp_out.c:1631-1676 | a time-out moves everything unacked back in front, in order |
| `SendQueue.RexmitThenSendIsIdentity` | core/c/core/tcp_out.c:1724-1774 | fast retransmit followed by the successful send restores the queues exactly |
| `SendQueue.WriteAfterRexmitIff` | core/c/core/tcp_out.c:453-620 | a write between fast retransmit and its send keeps the queues in order if and only if something was unsent before, or the retransmitted segment was the only one, or is empty, or is full |
| `SendQueue.RequeueAfterRexmitIff` | core/c/core/tcp_out.c:1631-1676 | a time-out between fast retransmit and its send keeps the invariant if and only if the retransmitted segment was the only one |
| `SendQueue.SplitKeeps` | core/c/core/tcp_out.c:827-990 | splitting the unsent head changes neither bytes nor sequence space, and counts the new pbufs |
| `SendQueue.SplitKeepsIff` | core/c/core/tcp_out.c:877-940 | a split keeps the invariant if and only if the head has no FIN, which would stay on it as well, and is not acknowledged that far |
| `SendQueue.WidenKeepsIff` | core/c/core/tcp_in.c:1170-1178 | a new largest window keeps the invariant if and only if what is queued fits into the local MSS (tcp_out.c:417-418) it leads to; from a largest window of 2 on it always does |
| `SendRuns.InvIsInOrder` | core/c/core/tcp_out.c:1354-1406 | the invariant on the two lists merged by position is, where everything unacked lies in front of everything unsent, the invariant on their concatenation (iff) |
| `SendRuns.OutputKeepsSound` | core/c/core/tcp_out.c:1237-1420 | sending, retransmitted segments included, changes nothing about the merged lists |
| `SendRuns.RexmitKeeps` | core/c/core/tcp_out.c:1724-1774 | a fast retransmit whose segment waits to be sent changes nothing about the merged lists |
| `SendRuns.AckKeepsSound` | core/c/core/tcp_in.c:1245-1332 | an acknowledgement, while retransmitted segments wait, releases a prefix of the merged lists and keeps the sums |
| `SendRuns.WriteKeepsIff` | core/c/core/tcp_out.c:453-812 | a write in any such state keeps the queues in order if and only if the last segment is unsent, or nothing goes into the last unsent one |
| `SendRuns.FinKeepsIff` | core/c/core/tcp_out.c:1001-1020 | a FIN keeps them so if and only if it takes a segment of its own or the last segment is unsent |
| `SendRuns.RequeueKeepsIff` | core/c/core/tcp_out.c:1631-1676 | a time-out keeps them so if and only if everything unacked lies in front of everything unsent |
| `SendRuns.SplitKeepsIff` | core/c/core/tcp_out.c:827-990 | a split keeps them so if and only if the head has no FIN, and what stays of it at the front is not acknowledged |
| `SendRuns.WidenSoundIff` | core/c/core/tcp_in.c:1170-1178 | a new largest window keeps them so if and only if everything queued fits into the local MSS it leads to |
| `SendRuns.ProbeKeeps` | core/c/core/tcp_out.c:2116-2190 | a zero-window probe moves snd_nxt by at most the one byte it sends and keeps the queues in order |
| `SendRuns.StepKeeps` | core/c/core/tcp_out.c:389-990 | every legal step keeps the invariant on the merged lists |
| `SendRuns.RunKeeps` | core/c/core/tcp_out.c:389-1774 | ... so it holds in every state of every run, from any first window |
| `SendRuns.RunConserves` | core/c/core/tcp_out.c:389-2190 | for every run of writes, flags, sends, retransmissions, time-outs, probes, windows, splits and acknowledgements, with retransmitted segments waiting as long as they like: both lists together tile sequence space, and released bytes followed by queued bytes in order are exactly what was written; snd_buf and snd_queuelen are exact |
| `SendSteps.MssIs` | core/c/core/tcp_out.c:417-418 | the local MSS is the MSS or half the peer's largest window, whichever is less, and the MSS while that window is 0 or 1 |
| `SendSteps.WriteSucceedsIff` | core/c/core/tcp_out.c:321-812 | a write of at least a byte succeeds if and only if it fits the send buffer, the queue was not full, and memory and SND_QUEUELEN bear one pbuf for the last segment, if that needs one, and as few new segments as hold the rest |
| `SendSteps.WriteMakes` | core/c/core/tcp_out.c:453-812 | the last unsent segment takes what fits, the rest makes as few new segments as can be, all full but the last; all else in the queue stays, counters move by exactly that |
| `SendSteps.WriteFillsPbufs` | core/c/core/tcp_out.c:470-560 | the spare room of the last pbuf is used first; what is more lies in one pbuf behind it, or in the last one if the bytes follow those there |
| `SendSteps.WriteSpares` | core/c/core/tcp_out.c:224-264 | behind a new pbuf there is spare room if and only if more is to come, as much as TCP_OVERSIZE and the segment bear; else what is left of the old |
| `SendSteps.OutputSends` | core/c/core/tcp_out.c:1326-1420 | what is sent is exactly the segments in front of the first one that ends beyond the window or is not let through; snd_nxt moves to the last end |
| `SendSteps.OutputMoves` | core/c/core/tcp_out.c:1326-1420 | ... in every state of a run, and the unacked list gains exactly those |
| `SendSteps.AckReleases` | core/c/core/tcp_in.c:1245-1332 | an acknowledgement of something new that was sent releases exactly the segments it covers whole, of both lists; any other changes nothing |
| `SendSteps.TimeoutResends` | core/c/core/tcp_out.c:1631-1676 | after a time-out nothing counts as sent, and everything is unsent in the order it was |
| `SendSteps.RexmitMoves` | core/c/core/tcp_out.c:1724-1774 | a fast retransmit moves the oldest unacked segment, and no other, to its place among the unsent |
| `SendSteps.EnqueueAdds` | core/c/core/tcp_out.c:1032-1130 | SYN or FIN become a segment behind all others with exactly these flags and the next sequence number |
| `SendSteps.FinGoesOn` | core/c/core/tcp_out.c:1001-1020 | a FIN goes on the last unsent segment if and only if that has no flag, and changes nothing else there |
| `SendSteps.SplitCuts` | core/c/core/tcp_out.c:827-990 | a split leaves the first n bytes in the head and the rest, with its flags, right behind it; pbufs are cut where the bytes are |
| `SendSteps.ProbeSends` | core/c/core/tcp_out.c:2116-2190 | a window probe moves snd_nxt past the head's first byte, if it was not, and nothing else |
| `SendSteps.RunSeesLargest` | core/c/core/tcp_in.c:1170-1178 | in every state of every run snd_wnd_max is the largest window seen so far |
| `TcpOut.TcpPcb.Write` | core/c/core/tcp_out.c:390-812 | tcp_write is transactional: it succeeds exactly if memory and limits suffice and then is Written, and otherwise nothing has changed; the queues stay in order under the stated iff |
| `TcpOut.TcpPcb.EnqueueFlags` | core/c/core/tcp_out.c:1032-1130 | tcp_enqueue_flags is Enqueued, or changes nothing |
| `TcpOut.TcpPcb.SendFin` | core/c/core/tcp_out.c:1001-1020 | tcp_send_fin succeeds if and only if a segment takes the FIN or there is memory for one; it is FinSent then, and changes nothing else |
| `TcpOut.FreeAcked` | core/c/core/tcp_in.c:1104-1142 | freeing acknowledged segments on wrapped numbers keeps exactly those that end beyond the ACK and counts the bytes and pbufs of the others |
| `TcpOut.TcpPcb.ReceiveAck` | core/c/core/tcp_in.c:1245-1332 | the ACK part of tcp_receive is Acked; the bytes reported are those released |
| `TcpOut.TcpPcb.Output` | core/c/core/tcp_out.c:1237-1420 | the sending loop, with the insertion of retransmitted segments into unacked, is Output |
| `TcpOut.TcpPcb.RexmitRtoPrepare` | core/c/core/tcp_out.c:1631-1676 | it succeeds exactly when something is unacked and nothing of it is still in use, and then is Requeue; otherwise it changes nothing |
| `TcpOut.TcpPcb.Rexmit` | core/c/core/tcp_out.c:1724-1774 | the first unacked segment goes into its place in unsent, or nothing changes |
| `TcpOut.TcpPcb.FastRetransmit` | core/c/core/tcp_out.c:1783-1815 | retransmission and successful send leave the queues as they were |
| `TcpOut.TcpPcb.ZeroWindowProbe` | core/c/core/tcp_out.c:2116-2190 | tcp_zero_window_probe on wrapped numbers is Probed, or changes nothing if there is no memory |
| `TcpOut.TcpPcb.SplitUnsentSeg` | core/c/core/tcp_out.c:827-990 | tcp_split_unsent_seg with its error cases is Split, FIN included |
| `TcpOut.TcpPcb.Perform` | core/c/core/tcp_out.c:389-2190 | every event of a run, carried out on wrapped numbers, is Step and keeps the invariant on the merged lists |
| `Checksum.FoldCanon` | core/c/core/inet_chksum.c:100-112 | FOLD_U32T keeps the value modulo 65535 and zero apart; twice is canonical |
| `Checksum.WordsConcat` | core/c/core/inet_chksum.c:568-588 | the sum of a concatenation from those of its parts, even or odd (section 2 of RFC 1071) |
| `Checksum.WordsAfterEven` | core/c/core/inet_chksum.c:133-173 | behind an even number of bytes the sum of words simply goes on |
| `Checksum.NetWordsSwap` | core/c/core/inet_chksum.c:80-114 | summing with the bytes of each word swapped gives the swapped sum (section 2 of RFC 1071) |
| `Checksum.NoOverflowIff` | core/c/core/inet_chksum.c:80-114 | the 32-bit sum overflows for no content if and only if there are at most 0x20002 bytes |
| `Checksum.Chksum1` | core/c/core/inet_chksum.c:80-114 | version 1 is the canonical RFC 1071 sum |
| `Checksum.Chksum2` | core/c/core/inet_chksum.c:133-173 | version 2, at even and odd addresses, is the same value |
| `Checksum.Chksum3` | core/c/core/inet_chksum.c:189-255 | version 3, at any address and for any length, is the same value |
| `Checksum.AllAgree` | core/c/core/inet_chksum.c:79-255 | all three return the identical 16-bit value on every buffer up to 0x20000 bytes |
| `ChecksumChain.SumAll` | core/c/core/inet_chksum.c:260-294 | the loop over a pbuf chain, with its swaps at odd lengths, is the sum of the flat bytes |
| `ChecksumChain.SumChain` | core/c/core/inet_chksum.c:399-440 | the partial loop is the sum of the first bytes of the flat concatenation, however it is cut |
| `ChecksumChain.InetChksumPbuf` | core/c/core/inet_chksum.c:568-588 | the checksum of a chain is that of its flat bytes |
| `ChecksumChain.ChksumPseudo` | core/c/core/inet_chksum.c:260-294 | with a pseudo-header, likewise |
| `ChecksumChain.ChksumPseudoPartial` | core/c/core/inet_chksum.c:399-440 | with a pseudo-header and a limit, likewise |
| `ChecksumChain.FieldMakesZero` | core/c/core/inet_chksum.c:568-588 | writing the checksum into a zeroed field at an even offset makes the recomputed checksum 0 |
| `ChecksumChain.SegAddChksum` | core/c/core/tcp_out.c:283-295 | one append of any length keeps sum and swap flag right |
| `ChecksumChain.BuildSegment` | core/c/core/tcp_out.c:490-620 | sum and swap flag are right after any sequence of appends and chained pieces |
| `ChecksumChain.OutputChksum` | core/c/core/tcp_out.c:1579-1589 | checksum-on-copy gives exactly the checksum computed the slow way over pseudo-header, header and data |
| `HeapBlocks.AllocatedKeeps` | core/c/core/mem.c:869-935 | serving a request keeps tiling and coalescing, adds one used block with the room asked for and less than one block more, and touches no other |
| `HeapBlocks.FreedKeeps` | core/c/core/mem.c:474-510 | freeing removes one used block, touches no other, and leaves no two free neighbours |
| `HeapBlocks.TrimmedKeeps` | core/c/core/mem.c:750-805 | trimming keeps tiling and coalescing and shrinks that block only |
| `HeapBlocks.UsedDisjoint` | core/c/core/mem.c:831-976 | two used blocks do not overlap |
| `HeapBlocks.EmptyIsWhole` | core/c/core/mem.c:474-510 | when nothing is in use the heap is one free block again |
| `HeapRuns.MallocKeeps` | core/c/core/mem.c:831-976 | what mem_malloc does to the user's blocks and to the statistic |
| `HeapRuns.FreeKeeps` | core/c/core/mem.c:617-686 | what mem_free does to the user's blocks and to the statistic |
| `HeapRuns.TrimKeeps` | core/c/core/mem.c:699-820 | what mem_trim does to the user's blocks and to the statistic |
| `HeapRuns.MallocServes` | core/c/core/mem.c:831-976 | a request is served if and only if some free block has room for it, from the lowest such; the block given out has exactly the rounded size unless what is left over could not be a block; otherwise nothing changes |
| `HeapRuns.RoundedIs` | core/c/core/mem.c:831-850 | the rounded size is the least aligned size that holds the request and a block's minimum |
| `HeapRuns.TrimIs` | core/c/core/mem.c:699-820 | a block gets exactly the rounded size if it is large enough and what is cut off joins a free block or can be one; otherwise it stays |
| `HeapRuns.RunKeeps` | core/c/core/mem.c:474-976 | after every sequence of operations the used blocks are exactly those the user holds, each with the room asked for |
| `HeapRuns.RunIsSafe` | core/c/core/mem.c:474-976 | after every sequence of operations live allocations are aligned, large enough, inside the heap and pairwise disjoint, and none are left over |
| `HeapRuns.MallocFree` | core/c/core/mem.c:617-686 | freeing what was just allocated restores the block list exactly |
| `Heap.Relinked` | core/c/core/mem.c:474-510 | rewriting the headers of a stretch and the one back link behind it keeps the in-band list in step with the blocks |
| `Heap.HeldLooksUsed` | core/c/core/mem.c:551-564 | a live pointer passes every check of mem_free, mem_link_valid included |
| `Heap.Memory.constructor` | core/c/core/mem.c:516-545 | mem_init gives one free block and the end marker |
| `Heap.Memory.FindFit` | core/c/core/mem.c:867-885 | the search from lfree up to MEM_SIZE_ALIGNED - size finds the lowest free block that fits, and fails only if none does |
| `Heap.Memory.Malloc` | core/c/core/mem.c:831-976 | mem_malloc on the in-band list is Malloc: complete first fit; prev/next agree, lfree is the lowest free block or the end marker, used is the span of used blocks |
| `Heap.Memory.PlugHoles` | core/c/core/mem.c:474-510 | plug_holes merges forward and backward and keeps lfree the lowest free block |
| `Heap.Memory.Free` | core/c/core/mem.c:617-686 | mem_free of a live pointer never takes an illegal branch and is Free; a pointer that fails a check changes nothing but the count |
| `Heap.Memory.Trim` | core/c/core/mem.c:699-820 | mem_trim with its error cases is Trim |
| `Heap.Memory.WriteInside` | core/c/core/mem.c:474-510 | whatever the user writes into a live block, the list is unharmed |
| `Sack.AddSack` | core/c/core/tcp_in.c:2063-2110 | the in-place compaction and the shift from the back give the new range followed by the old ranges that do not overlap it, in order, truncated and zero-filled |
| `Sack.RemoveSacksLt` | core/c/core/tcp_in.c:2123-2149 | the in-place loop gives the ranges that reach past the limit, clipped, in order, zero-filled |
| `Sack.AddKeeps` | core/c/core/tcp_in.c:2063-2110 | valid entries stay a pairwise disjoint prefix, newest first; all of the new range is reported and nothing that was not reported before |
| `Sack.AddIsUnionIff` | core/c/core/tcp_in.c:2063-2110 | adding reports exactly the old bytes and the new ones if and only if the new range takes in every range it meets and fewer than MAX others stay |
| `Sack.RemoveKeeps` | core/c/core/tcp_in.c:2123-2149 | exactly the bytes from the limit on stay reported, relative to a base that moved up |
| `Sack.RunKeeps` | core/c/core/tcp_in.c:2063-2149 | in every run of additions and removals: disjoint prefix, and whatever is reported was in a range that was added |
| `Sack.AddedPlaces` | core/c/core/tcp_in.c:2063-2110 | after adding come the new range and then the ranges apart from it, exactly these and in the order they had; of four the oldest is dropped |
| `SackQueue.EdgesAreRun` | core/c/core/tcp_in.c:1686-1831 | sackbeg and sackend, found on the way through the queue, are the ends of the whole contiguous run of queued bytes around the new segment |
| `SackQueue.RunHeld` | core/c/core/tcp_in.c:1826-1830 | every byte of that run is in the queue, and the run starts where a segment does |
| `SackQueue.StoreTruthfulIff` | core/c/core/tcp_in.c:1665-1831 | after an out-of-order segment the array still reports nothing but queued bytes, if and only if there was memory for the segment or something queued lies in front of it |
| `SackQueue.InputMoves` | core/c/core/tcp_in.c:427-552 | when nothing is refused any more, a segment moves rcv_nxt and the queue exactly as an arrival does, whatever the application answers |
| `SackQueue.DeliverTruthful` | core/c/core/tcp_in.c:1626-1634 | after in-order data the array reports nothing but bytes that are still queued |
| `SackQueue.RunTruthful` | core/c/core/tcp_in.c:1389-1831 | in every state of every run of a connection (with memory for a segment that goes first) every byte selectively acknowledged is held in the queue; entries are a disjoint prefix (section 4 of RFC 2018) |
| `SackComplete.RunIsMaximal` | core/c/core/tcp_in.c:1686-1831 | the byte in front of the run that is reported is not held, nor the one behind it |
| `SackComplete.StoreCompleteIff` | core/c/core/tcp_in.c:1665-1831 | with every byte of the queue reported, storing a segment keeps it so if and only if at most three other ranges stay and the segment does not cut its predecessor within a range that goes on behind it |
| `SackComplete.DeliverComplete` | core/c/core/tcp_in.c:1626-1634 | after in-order data every byte that is still queued is still reported |
| `SackComplete.StepCompleteIff` | core/c/core/tcp_in.c:1389-1831 | a step of a connection keeps every queued byte reported if and only if what it stores fits in that sense |
| `SackComplete.RunCompleteIff` | core/c/core/tcp_in.c:1389-1831 | in every run, and up to every state of it: all queued bytes were reported in all states if and only if every segment stored fitted; with SackQueue.RunTruthful the array then reports exactly the queue |
| `TimerQueue.InsertPlace` | core/c/core/timeouts.c:183-221 | a timeout goes behind all that are due no later and before all that are due later: first in, first out for ties |
| `TimerQueue.InsertSorted` | core/c/core/timeouts.c:183-221 | insertion keeps the list sorted |
| `TimerQueue.RemoveKeeps` | core/c/core/timeouts.c:317-341 | one timeout of the timer is removed, if there is one, and the order stays |
| `TimerQueue.HandlerLowersWeight` | core/c/core/timeouts.c:232-261 | every handler run brings the call closer to its end |
| `TimerQueue.Check` | core/c/core/timeouts.c:352-396 | one call terminates, runs at most two handlers per overdue timeout and one per timeout due now, and leaves nothing due |
| `TimerQueue.CheckInOrder` | core/c/core/timeouts.c:352-396 | handlers run in due order, none later than the time of the call, and the list stays sorted |
| `TimerQueue.CheckCounts` | core/c/core/timeouts.c:352-396 | every due timeout runs; a one-shot runs once or stays; a cyclic timer is never lost or doubled; none runs more than twice |
| `TimerQueue.AfterHandlerIs` | core/c/core/timeouts.c:232-261 | a handler leaves at most one entry of its timer, in its place among the unchanged others: a cyclic timer is due one interval after it was due, or, if that has passed, one after the handler ended |
| `TimerQueue.NoDrift` | core/c/core/timeouts.c:232-261 | over any number of calls that end in time a cyclic timer does not drift: its n-th run is due n intervals after the first, and so is the entry left in the list |
| `Timeouts.TimerList.TimeoutAbs` | core/c/core/timeouts.c:183-221 | insertion by wrapped times is insertion by time while all lie within half the range; if the pool is empty the timeout is dropped |
| `Timeouts.TimerList.Timeout` | core/c/core/timeouts.c:290-306 | sys_timeout counts from now; likewise |
| `Timeouts.TimerList.Untimeout` | core/c/core/timeouts.c:317-341 | sys_untimeout is Remove |
| `Timeouts.TimerList.CyclicTimer` | core/c/core/timeouts.c:232-261 | the next run is one interval after the due time, unless that has passed |
| `Timeouts.TimerList.CheckTimeouts` | core/c/core/timeouts.c:352-396 | the firing loop on wrapped times, with a clock that goes on, is Check |
| `Timeouts.TimerList.Restart` | core/c/core/timeouts.c:404-420 | the first timeout is due now and the distances stay |
| `Timeouts.TimerList.SleepTime` | core/c/core/timeouts.c:426-443 | the time left until the first timeout |
| `Rto.Estimator.Sample` | core/c/core/tcp_in.c:1360-1382 | the 16-bit code for every sample; up to 4095 ticks and within the bounds it is the estimator over the integers |
| `Rto.Estimator.Ack` | core/c/core/tcp_in.c:1257-1261 | an ACK of new data resets the back-off |
| `Rto.Estimator.SlowTick` | core/c/core/tcp.c:1270-1294 | one tick of the retransmission timer and its back-off |
| `Rto.SampleFits` | core/c/core/tcp_in.c:1360-1382 | for samples up to 4095 ticks the 16-bit code truncates nothing and the bounds 0 <= sa <= 32767, 3 <= sv <= 16383, 3 <= rto <= 0x7FFF are kept |
| `Rto.RunsKeepIff` | core/c/core/tcp_in.c:1360-1382 | all runs of the 16-bit code with samples of at most M ticks keep the bounds if and only if M is at most 4095 (a comment there allows 32K) |
| `Rto.TooLong` | core/c/core/tcp_in.c:1360-1382 | the failing runs: samples of 4096 ticks repeated from the initial values raise the estimate until it leaves 16 bits |
| `Rto.Learns` | core/c/core/tcp_in.c:1360-1382 | constant round trips are approached monotonically, never overshot, and kept |
| `Rto.FollowsRfc` | core/c/core/tcp_in.c:1360-1382 | every sample moves the round trip by 1/8 of its error and the deviation by a quarter of what the size of the error differs from it, and the time-out is the one plus four times the other, all to less than a unit of the fixed point (section 2 of RFC 6298) |
| `Rto.AckUndoesBackoff` | core/c/core/tcp_in.c:1257-1261 | any number of time-outs leaves the estimate alone, and an ACK of new data undoes them: the time-out is that of the estimate again and the next one doubles it |
| `Rto.BackoffDoubles` | core/c/core/tcp.c:1286-1289 | successive time-outs double up to 128 times the estimate or 0x7FFF |
| `Rto.RunKeeps` | core/c/core/tcp.c:1270-1294 | the bounds hold in every run from the initial values (section 2 of RFC 6298) |
| `Rto.TimerFires` | core/c/core/tcp.c:1270-1275 | a running timer fires after exactly as many ticks as are left of the time-out |
| `PbufChain.CopyPartial` | core/c/core/pbuf.c:1027-1057 | the bytes copied are the slice of the flat bytes |
| `PbufChain.Take` | core/c/core/pbuf.c:1196-1226 | it succeeds exactly if the chain exists and the bytes fit, and then overwrites the flat bytes; otherwise nothing is written |
| `PbufChain.Skip` | core/c/core/pbuf.c:1152-1166 | the pbuf and offset at which a flat position lies |
| `PbufChain.TakeAt` | core/c/core/pbuf.c:1240-1262 | it succeeds exactly if the offset lies inside and the bytes fit, and then is a splice; otherwise nothing is written |
| `PbufChain.CopyChain` | core/c/core/pbuf.c:961-1012 | on success the destination starts with the source and keeps its rest, on an error with part of it; the result depends on the cut places alone and is Outcome |
| `PbufChain.FullIsOk` | core/c/core/pbuf.c:973-1011 | chains that do not end in empty pbufs are copied, however they are cut |
| `PbufChain.OutcomeIff` | core/c/core/pbuf.c:973-1011 | a source that fits is copied if and only if neither chain ends in empty pbufs, or only the destination does and the copy ends before it comes to them or fills its one pbuf from one, or the source is one pbuf and an empty one and leaves room behind (for every pair of chains) |
| `PbufChain.OutcomeArgIff` | core/c/core/pbuf.c:973-1011 | a source that fits and is not copied is an argument error if and only if one pbuf is to take all its bytes and empty pbufs are left over; else it passes for a queue |
| `PbufChain.Free` | core/c/core/pbuf.c:725-800 | exactly the leading run of pbufs with one reference is released and the next one loses a reference; the count is kept in 8 bits |
| `PbufChain.Cat` | core/c/core/pbuf.c:853-875 | the chains are joined and the total lengths of the first are raised |
| `PbufChain.CatHolds` | core/c/core/pbuf.c:853-875 | the joined chain holds the bytes of both |
| `PbufChain.CatTotals` | core/c/core/pbuf.c:853-875 | every tot_len of the joined chain is again the 16-bit sum of what follows |
| `PbufChain.Realloc` | core/c/core/pbuf.c:402-459 | the chain holds the prefix, its total lengths are right, and the rest loses one reference |
| `PbufChain.AllocPool` | core/c/core/pbuf.c:224-300 | exactly as many pbufs as needed, all but the last full; or none, and everything taken is released |
| `LocalPort.NewPort` | core/c/core/tcp.c:1011-1035 | from any port tried last, the loops over the lists are Search |
| `LocalPort.SearchIsFirst` | core/c/core/tcp.c:1011-1035 | what is found is the first free port in the order of the search, or none within one more try than there are ports |
| `LocalPort.InRangeFinds` | core/c/core/tcp.c:1011-1035 | a search that starts in the range returns a free port of it, or 0 exactly if all are used, and ends in the range |
| `LocalPort.PromiseIff` | core/c/core/tcp.c:1011-1035 | that promise holds for all lists of control blocks if and only if the first port tried lies in the range, that is the one tried last lies in 0xbfff..0xfffe |
| `LocalPort.EndFindsNothing` | core/c/core/tcp.c:200-206 | tcp_init can choose 0xffff: the first call then finds no port although all are free, and the next returns port 1 |
| `Shortfalls.LosingRun` | core/c/core/tcp_in.c:1722-1807 | a run in which a queued byte is lost to a segment that repeats part of the queue |
| `Shortfalls.LosingSacks` | core/c/core/tcp_in.c:2063-2110 | a run in which bytes that are still held are no longer reported, because a segment repeats part of the one in front of them |
| `Shortfalls.FifthRange` | core/c/core/tcp_in.c:2063-2110 | a run of five separate segments: the first is still held but no longer reported |
| `Shortfalls.FalseSack` | core/c/core/tcp_in.c:1665-1672 | a segment that cannot be copied is selectively acknowledged with an empty queue |
| `Shortfalls.StoredBeyondWindow` | core/c/core/tcp_in.c:1663-1672 | the first segment queued is kept beyond the right edge of the window |
| `Shortfalls.Retransmitting` | core/c/core/tcp_out.c:1724-1774 | a run whose fast retransmit waits to be sent while an unacked segment follows |
| `Shortfalls.BrokenByRexmit` | core/c/core/tcp_out.c:1724-1774 | ... after which a write, a FIN or a time-out puts the queues out of order |
| `Shortfalls.SplitAcknowledged` | core/c/core/tcp.c:1246-1260 | a run after which the persist timer splits the head at the window, 30, and leaves a head that is already acknowledged |
| `Shortfalls.SplitProbed` | core/c/core/tcp.c:1246-1260 | the same after a window probe whose byte was taken |
| `Shortfalls.MssShrinks` | core/c/core/tcp_out.c:417-418 | a first window of 0 and then 100: the segment queued is longer than the largest |
| `Shortfalls.SplitFin` | core/c/core/tcp_out.c:877-940 | a run after which a split leaves the FIN on both halves |
| `Shortfalls.FreeCountsNone` | core/c/core/pbuf.c:725-800 | 256 pbufs with one reference each: all are released and the count is 0 |
| `Shortfalls.NothingAtEnd` | core/c/core/pbuf.c:1240-1262 | nothing at the very end of any chain: pbuf_take_at fails |
| `Shortfalls.NotCopied` | core/c/core/pbuf.c:973-1011 | five bytes are not copied into a chain of nine and none |

## Left out

- Delivery.RunDeliversPrefix: the peer overruns the window only where the stack cuts (the exact condition is `Reassembly.ArriveKeepsInv`), and places every byte and the FIN consistently.
- Delivery.InputDelivers: says what one in-order segment delivers; that the peer retransmits until it arrives is not part of the model.
- TcpIn.TcpPcb.Input: segments with SYN or RST, connection states other than "text is accepted or not", TIME_WAIT, TF_RXCLOSED and callbacks that abort are not modelled; neither are limits on the out-of-sequence queue, which are off by default.
- TcpIn.TcpPcb.Receive: congestion control, duplicate ACK counting and delayed ACKs are not modelled. The SACK array is kept as with LWIP_TCP_SACK_OUT set, which is off by default.
- SackComplete.RunCompleteIff: about the bytes held; the position of a FIN is never reported.
- SackQueue.RunTruthful: assumes memory for a segment that goes in front of everything queued (the exact condition is `SackQueue.StoreTruthfulIff`); the options that carry the ranges are not modelled.
- TcpIn.TcpPcb.Recved: the window update it may send is the inflation it returns; transmission is a step of its own.
- SendRuns.RunConserves: the MSS is fixed, and the events at which the queues get out of order are left out, exactly these (`SendRuns.WriteKeepsIff`, `SendRuns.FinKeepsIff`, `SendRuns.RequeueKeepsIff`, `SendRuns.SplitKeepsIff`, `SendRuns.WidenSoundIff`).
- TcpOut.TcpPcb.ReceiveAck: the congestion window, duplicate ACK counting and the timers are not modelled.
- TcpOut.TcpPcb.Perform: flags, time-outs, probes, retransmissions and splits of a run find memory and no busy segment; their other outcomes are those of the methods.
- TcpOut.TcpPcb.FastRetransmit: the queues are in order before, nothing is busy and the segment goes out at once; `TcpOut.TcpPcb.Rexmit` and the runs have no such limits.
- TcpOut.TcpPcb.SplitUnsentSeg: PSH and the recomputed checksum are not kept.
- TcpOut.TcpPcb.ZeroWindowProbe: the probe itself and the counters of the persist timer are not modelled, only what it does to the queues and snd_nxt.
- TcpOut.TcpPcb.Output: the Nagle test, IP output and the start of the persist timer are a list of go-aheads; header fields other than sequence number, SYN and FIN are not kept.
- TcpOut.TcpPcb.Write: payload is bytes and pbuf lengths; aliasing of no-copy payload is not modelled, and TCP_OVERSIZE is TCP_MSS.
- Checksum.Chksum2: a little-endian machine.
- ChecksumChain.OutputChksum: the header has an even length, as TCP headers have.
- Heap.Memory.Malloc: the mutex variant with 32-bit offsets and the statistics; MEM_ALIGNMENT may be 1, 2 or 4, and the sizes are any aligned ones. The configuration of this repository uses the C library's allocator instead.
- Heap.Memory.Free: a stray pointer into memory that looks like a linked, used header is outside the contract; overlapping headers are kept as separate entries per offset.
- PbufChain.CopyPartial: returns the bytes instead of filling a caller's buffer, so overlap of the two is not modelled.
- PbufChain.Realloc: does not give memory back to the heap with mem_trim.
- PbufChain.Cat: does not check the 16-bit total for overflow, as the code says; total lengths are right modulo 65536.
- PbufChain.AllocPool: only the pool case of pbuf_alloc; reference, ROM and RAM pbufs, headers and custom pbufs are not modelled.
- Timeouts.TimerList.TimeoutAbs: the assertion for an empty pool, compiled into debug builds, is not modelled.
- Timeouts.TimerList.CheckTimeouts: handlers other than the cyclic and the TCP timer leave the list alone, and all times of one call lie within half the range.
- Rto.Estimator.SlowTick: giving up after too many retransmissions, the congestion window and the persist timer are not modelled.
- LocalPort.NewPort: the list of control blocks is a list of port numbers.
- tcp_remove_sacks_gt: compiled only with limits on the out-of-sequence queue.
- The Go code, the dispatch layers, IP, UDP, DNS and ND6: glue, or too simple to add anything.
- Keep-alive, option parsing, debug output, and the variant of the heap that is freed from another context.
