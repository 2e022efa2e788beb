# Verified model of the TCP engine and its supporting structures

This project models the data-transfer engine of an lwIP TCP that runs over UDP datagrams, together with
the structures it stands on: the blocking mailbox between threads, packet buffers, the PCB lists, dynamic
port allocation, the round-trip time estimator and the timeout list. `dafny verify dfyconfig.toml` checks
everything. Paths and lines below refer to the repository.

## How the model is built

The engine is modelled twice. Once as functions on a state with unbounded stream offsets
(`Reassembly`, `ReceiverSpec`, `SendQueues`), about which the invariants and the whole-run theorems are
proved; and once as classes with the 32-bit and 16-bit fields of `struct tcp_pcb` (`Receiver.TcpReceiver`,
`Sender.TcpSender`), whose methods follow the loops and branches of the C code. A ghost field `view` of a
class holds the state with unbounded offsets, and every method is proved to do to the view what the
function says, sequence-number wrap included. The comparisons are the `TCP_SEQ_*` macros; what they need,
compared numbers less than 2^31 apart (section 3.3 of RFC 793), is a precondition of the methods, and
`Sender.InvariantInReach` and `WireRuns.EdgeReached` prove that it follows from the invariant for all numbers
the two ends hold themselves. `WireRuns.Connection` puts both classes together: whatever calls are made in
whatever order, the 32-bit fields are those of a run of `EndToEnd`, as long as no message arrives that is
more than 2^29 (acknowledgements) or about 2^31 (data) bytes old.

| file | contents |
|---|---|
| SequenceNumbers, WireFormat | fixed-width integers, modular comparisons, 32-bit images of positions |
| Reassembly | the out-of-sequence queue as a function on offsets: insert, trim, absorb, drain |
| ReceiverSpec, ReceiveWindow | receive half: delivery, refusal, FIN, window and announcements |
| Arrival, WindowAccounts | what any segment changes; what the window stands for and when it is announced |
| Lifecycle | the closing states as a summary of what has happened |
| OutOfSequence, Receiver | the same on the fields of the PCB, with the loops of `tcp_receive` |
| SendQueues, SendInvariants | send half: `tcp_write`, `tcp_send_fin`; the tiling of the stream by both queues |
| Transmission, Acknowledgement | `tcp_output`, retransmission and acknowledgements against that tiling |
| WriteLaws, OutputLaws, Congestion | how `tcp_write` cuts, when `tcp_output` sends, what runs do to the congestion window |
| SendSegments, Sender | the same on the fields of the PCB, with the loops of `tcp_out.c` |
| LocalMss | when the assertions of `tcp_write` about the last unsent segment hold |
| EndToEnd, NotableRuns | both ends and a network that loses, duplicates, reorders and delays; particular runs |
| WireRuns | the two classes, connected: 32-bit runs refine those of EndToEnd |
| Mailbox | `sys_arch.c` as an interleaving of threads |
| PbufHeap, PbufChains, PbufPool | chains of packet buffers: bytes and reference counts |
| PcbLists, PortAllocation, RttEstimator, TimeoutList | the smaller state machines |

What the functions compute is stated a second time without them: `Arrival`, `WriteLaws`, `OutputLaws`,
`Congestion`, `Lifecycle` and `WindowAccounts` say what a segment, a call, or a run changes in terms of offsets,
lengths, counts and histories, and the methods of the classes, proved equal to the functions, inherit that.

Memory allocation is a parameter: `budget` counts the allocations that succeed before one fails. The link
is a parameter of the same kind: `link` counts the segments it takes before `ip_output_if` fails. The
answers of application callbacks, the arriving message and the scheduler's choices are parameters too.

## Results that qualify what the code is expected to do

* Window accounting. The assertion `rcv_wnd >= TCP_TCPLEN(cseg)` of the drain loop can fail between two
  conforming ends, because `tcp_output` compares the length without the FIN and a segment that starts the
  out-of-sequence queue is not trimmed to the window. `ReceiveWindow.NoWindowAssertFails`: whatever arrives
  in sequence, no window assertion fails, if and only if every queued segment that starts at or before the
  right edge also ends, FIN included, at or before it; `ReceiveWindow.QueueWithinWindow` says when a segment puts the queue
  outside it; `NotableRuns.FinBeyondWindow` is a run of both ends, from the handshake with the window
  `TCP_WND`, that ends in the failing assertion. The announced right edge never moves left in any case
  (`ReceiveWindow.InputKeepsAnn`).
* The assertions of `tcp_write` about the last unsent segment ("mss_local is too small"). After a handshake
  with a window of 0 or 1 `mss_local` falls back to `mss`, and a later window below two segments makes it
  smaller than what is queued: `NotableRuns.TailMayNotFit` is such a run. `LocalMss.UpdateKeepsTail` says
  exactly which window updates keep the assertions, `EndToEnd.TailAlwaysFits` that they hold after every run
  that starts with a window of at least 2. A `tcp_write` whose assertion fails stops the program and is no
  step of a run; the other whole-run theorems hold for every first window.
* FIN_WAIT_2 is entered when the acknowledgement number is `snd_nxt`, also if the FIN has not been sent yet:
  `NotableRuns.FinNeverSent` is a run that ends there with data and FIN unsent. The acknowledgement that leads
  to FIN_WAIT_2 covers the FIN if and only if `snd_nxt` is behind the FIN (`EndToEnd.FinWait2Means`).
* `TF_INFR` survives the retransmission timer: after a time-out the first acknowledgement for new data
  continues in slow start if and only if no fast retransmission was under way
  (`Congestion.FirstAckAfterTimeout`).
* A pending acknowledgement stays behind exactly when there is data inside the window that the Nagle
  algorithm holds back (`OutputLaws.PendingAckLeaves`).
* `tcp_recved` moves the right edge left exactly when the 16-bit sum wraps outside the passive-close case
  (`ReceiveWindow.RecvedKeepsEdge`).
* Between `tcp_rexmit` and the `tcp_output` that resends the segment, `tcp_write` keeps the queues a tiling
  of the stream if and only if it fails, or the retransmitted segment is not the last unsent one, or nothing
  else is unacked, or it is full. Otherwise it is extended over the unacked segment behind it, and carries
  wrong bytes from then on unless the new data happens to repeat the old (`Transmission.WriteAfterRexmit`).
* The mailbox supports one blocking fetcher. With two a wake-up is lost
  (`Mailbox.TwoFetchersLoseWakeup`), since only a post to the empty ring signals `not_empty`. With one
  fetcher no fetcher sleeps over a message, but a poster can sleep on over a ring with room, because
  `not_full` saturates: `Mailbox.PosterSleepsOverRoom` is such a run, `Mailbox.SleepsOverRoom` the exact
  condition.
* `tcp_bind` keeps the list axioms if and only if the PCB is not bound yet (`PcbLists.BindOnce`).
* `pbuf_dechain` returns a pointer to a freed buffer exactly when the run it frees is a positive multiple
  of 256 long, because the count is 8 bits wide (`PbufPool.Pool.Dechain`).
* The RTT estimator stays within its bounds in every run with samples of at most m ticks if and only if
  m is at most 4095 (`RttEstimator.BoundedUpTo4095`).

## Model

| member | source | states |
|---|---|---|
| SequenceNumbers.ComparisonsExact | include/lwip/tcp_impl.h:100-108 | every `TCP_SEQ_*` macro on 32-bit numbers orders them as the positions they stand for, when these are less than 2^31 apart |
| SequenceNumbers.DifferenceExact | include/lwip/tcp_impl.h:100-103 | the signed difference is the true distance if and only if that is in the range of `s32_t` |
| SequenceNumbers.ComparisonsFailHalfRangeApart | include/lwip/tcp_impl.h:100 | at distance 2^31 the order is inverted |
| Reassembly.QueueOkMeans | src/tcp_in.c:1424-1543 | the queue invariant: strictly sorted, disjoint, above `rcv_nxt`, no empty segment, FIN on the last at most |
| Reassembly.InsertKeepsQueue | src/tcp_in.c:844-876 | `tcp_oos_insert_segment` deletes what it covers, cuts the new segment before the next one and keeps the queue in order |
| Reassembly.InsertExact | src/tcp_in.c:844-876 | after it the queue holds exactly the bytes it held and those of the segment |
| Reassembly.PlaceKeepsQueue | src/tcp_in.c:1424-1543 | queueing any segment, on every path through the walk, keeps the queue in order |
| Reassembly.PlaceExact | src/tcp_in.c:1424-1543 | exactly which byte positions are held afterwards: what lands, minus the tail that trimming the previous segment cuts off |
| Reassembly.PlaceTrue | src/tcp_in.c:1424-1543 | the queue holds only bytes of the stream, at their places |
| Reassembly.AbsorbExact | src/tcp_in.c:1292-1343 | making an in-sequence segment and the queue disjoint loses no byte of either and adds none |
| Reassembly.DrainDelivers | src/tcp_in.c:1374-1413 | what the drain loop hands up is the stream from its start to the new `rcv_nxt` |
| Reassembly.DrainExact | src/tcp_in.c:1374-1413 | it drains the longest contiguous run: what is left does not hold the next byte, and is untouched |
| ReceiverSpec.InOrderExact | src/tcp_in.c:1265-1418 | an in-sequence segment is delivered whole within the window, nothing is delivered that did not arrive, and delivery does not stop short of a byte the queue holds |
| ReceiverSpec.ReceiveDelivers | src/tcp_in.c:1165-1543 | any genuine segment: what is handed up continues exactly where delivery stood, and the queue invariant holds afterwards |
| ReceiverSpec.InputKeeps | src/tcp_in.c:287-418 | accepted data and a refused buffer are together the stream up to `rcv_nxt`; EOF comes at most once and after all data |
| ReceiverSpec.ReofferKeeps | src/tcp.c:1200-1258 | offering a refused buffer again keeps that, whatever the application answers |
| ReceiverSpec.NothingAfterFin | src/tcp_in.c:1165-1169 | after the FIN `rcv_nxt` stays, nothing more is delivered and there is at most one EOF |
| ReceiverSpec.RefusedFirst | src/tcp_in.c:287-296 | while a buffer is refused, no new data is taken or handed up |
| Arrival.InSequenceTaken | src/tcp_in.c:1165-1418 | a genuine segment that starts at or before `rcv_nxt` and ends behind it, while the window is open: all of it up to the right edge is handed up with everything queued that continues it, nothing else is, and the FIN is neither lost nor invented |
| Arrival.OutOfSequenceHeld | src/tcp_in.c:1419-1551 | a genuine segment that starts above `rcv_nxt` inside the window: nothing is handed up, and exactly which offsets, and whether the FIN, are held afterwards, with and without memory |
| Arrival.OthersAnswered | src/tcp_in.c:1571-1574 | any other segment with text only has `rcv_nxt` and the window repeated |
| WindowAccounts.TakersGetAll | src/tcp_in.c:352-414 | an application that takes everything has been given all that `rcv_nxt` has passed, and told of the FIN if that is among it |
| WindowAccounts.WindowConserved | src/tcp.c:661-698 | over any sequence of segments, refusals and calls of `tcp_recved`: the window, what the application holds, what it has refused and a FIN held back add up to `TCP_WND` |
| WindowAccounts.UnreadIsUnread | src/tcp.c:178-182 | `tcp_close` takes the connection for unread exactly if the application has not taken and consumed everything |
| WindowAccounts.EvaluatedInSteps | src/tcp.c:628-651 | the whole window is announced if that moves the edge by min(TCP_WND/2, mss), and otherwise the edge stays |
| WindowAccounts.NoSillyWindow | src/tcp.c:628-651 | in every run any two announced right edges are equal or that far apart, unless the further one comes with a closed window |
| WindowAccounts.UpdateExactly | src/tcp.c:688-694 | `tcp_recved` sends an update exactly when the edge has moved by min(TCP_WND/4, 4 * TCP_MSS) and by that step |
| Lifecycle.StateIsHistory | src/tcp_in.c:774-834 | after every sequence of segments and closes the state is determined by which FINs were received, sent and acknowledged and which came first; TIME_WAIT and the end hold no data |
| Lifecycle.CloseAgrees | src/tcp.c:174-270 | the state change of `tcp_close` there is the one of the PCB lists |
| ReceiveWindow.ReceiveKeepsEdge | src/tcp_in.c:1271-1291 | `tcp_receive` leaves `rcv_nxt + rcv_wnd` where it is for every segment that ends inside it and for every one that is trimmed to it |
| ReceiveWindow.InputKeepsEdge | src/tcp_in.c:287-418 | over a whole `tcp_input` with such a segment the real and the announced right edge only move right |
| ReceiveWindow.InputKeepsAnn | src/tcp.c:628-651 | the announced edge never shrinks, even for a peer that sends past the window |
| ReceiveWindow.RecvedKeepsEdge | src/tcp.c:661-698 | when `tcp_recved` moves the right edge left: exactly when the 16-bit sum wraps outside the passive-close case |
| ReceiveWindow.AnnounceKeeps | src/tcp_out.c:106-127 | sending any segment announces an edge not left of the last one and not beyond the real one |
| ReceiveWindow.AnnouncementFits16Bits | src/tcp.c:640-648 | the announced window fits 16 bits wherever it is computed: for the segment taken in sequence, in each round of the drain loop, and in `tcp_recved` |
| ReceiveWindow.NoWindowAssertFails | src/tcp_in.c:1361-1386 | the window assertions hold for every genuine in-sequence segment if and only if every queued segment that starts at or before the right edge also ends there at the latest, FIN included |
| ReceiveWindow.QueueWithinWindow | src/tcp_in.c:1426-1536 | the queue stays within the window if and only if the segment, FIN included, ends within it or is not stored whole |
| NotableRuns.FinBeyondWindow | src/tcp_in.c:1384-1386 | a run of two conforming ends from the handshake on: a FIN one past the window is queued first, then the assertion fails and the window wraps to 0xffff |
| OutOfSequence.OosInsertSegment | src/tcp_in.c:844-876 | the loop on 32-bit numbers computes the image of the insertion on offsets |
| OutOfSequence.QueueOutOfSequence | src/tcp_in.c:1424-1543 | so does the whole walk over `ooseq`, with its four places to insert |
| Receiver.TcpReceiver.TcpReceive | src/tcp_in.c:1165-1543 | the data half of `tcp_receive` on the PCB fields does what `Arrival` says, and whether its acknowledgement is delayed, due or sent |
| Receiver.TcpReceiver.DrainOoseq | src/tcp_in.c:1374-1413 | the drain loop with its 16-bit window and 32-bit `rcv_nxt` |
| Receiver.TcpReceiver.UpdateRcvAnnWnd | src/tcp.c:628-651 | the window to announce, which fits 16 bits, and how far the edge would move |
| Receiver.TcpReceiver.TcpProcess | src/tcp_in.c:774-834 | the state changes of `Lifecycle` after `tcp_receive`, the acknowledgement a FIN asks for, and the purge |
| Receiver.SecondAtOnce | src/tcp_in.c:1418 | of two segments taken in sequence the second is acknowledged at once, and after one an acknowledgement is pending |
| Receiver.TcpReceiver.TcpInput | src/tcp_in.c:287-418 | refused data first, then processing, then the callbacks |
| Receiver.TcpReceiver.TcpRecved | src/tcp.c:661-698 | the window grows by what was consumed, and a large enough update is sent at once |
| SendInvariants.SegmentsTile | src/tcp_out.c:533-635 | phase 3 cuts the data into consecutive segments that fit `mss_local` |
| SendInvariants.SegmentsFull | src/tcp_out.c:533-635 | all of them but the last are full |
| SendInvariants.WriteAppends | src/tcp_out.c:437-717 | a successful `tcp_write` appends exactly the data to the unsent payload, whichever phases run |
| SendInvariants.WriteKeeps | src/tcp_out.c:364-733 | it appends to the stream and keeps the tiling, or leaves the PCB unchanged but for the memory-error flag, for any largest announced window |
| SendInvariants.SendFinKeeps | src/tcp_out.c:135-158 | `tcp_send_fin` puts the FIN behind the last byte, on the last unsent segment or in one of its own |
| WriteLaws.NoRoomLeft | src/tcp_out.c:437-635 | a successful `tcp_write` fills the last unsent segment with all it has room for and starts no segment while the one in front has room: how many there are, what is in each, and how many buffers |
| WriteLaws.SucceedsIff | src/tcp_out.c:304-346 | exactly when `tcp_write` succeeds, from the room, the send buffer, the queue length and the allocations needed; on failure nothing changes but a flag |
| WriteLaws.Reserved | src/tcp_out.c:229-272 | the bytes reserved behind the last segment: all its room or none |
| WriteLaws.MoreNeedsNoMemory | src/tcp_out.c:229-272 | after copied data with `TCP_WRITE_FLAG_MORE` the next calls need no memory and start no segment until the last one is full |
| WriteLaws.FinPlaced | src/tcp_out.c:135-158 | exactly when `tcp_send_fin` succeeds, and that it needs no memory while something is unsent |
| SendInvariants.TilingIsStream | src/tcp_out.c:364-717 | a tiling of true segments carries exactly the stream between its ends |
| SendInvariants.NothingAbandoned | src/tcp_in.c:1052-1131 | the queues hold every stream byte from `lastack` on |
| Transmission.OutputAny | src/tcp_out.c:970-1101 | `tcp_output` on any sorted queues and any link failure: a prefix of unsent is sent, all of it inside min(snd_wnd, cwnd) of `lastack`; queues stay sorted; no segment is lost; `snd_nxt` is the largest end sent |
| OutputLaws.EverythingLeaves | src/tcp_out.c:1015-1035 | with the link up, what stays unsent lies outside the window or is one short segment waiting for what is unacked; with `TF_NODELAY` only the former |
| OutputLaws.OnlyWhatMay | include/lwip/tcp_impl.h:83-97 | whatever the link takes, a segment leaves only inside the window, and a short one only with another behind it, with nothing unacked, or when waiting is overridden |
| OutputLaws.PendingAckLeaves | src/tcp_out.c:970-985 | when a pending ACK is still pending afterwards, when the memory-error flag is, and that transmitting starts the timer |
| Transmission.OutputKeeps | src/tcp_out.c:948-1101 | it keeps the tiling and transmits only true segments that end by `snd_nxt` |
| Transmission.RexmitRtoKeeps | src/tcp_out.c:1259-1290 | the retransmission timer puts everything unacked back in front of unsent and keeps the tiling |
| Transmission.RexmitFastKeeps | src/tcp_out.c:1300-1382 | fast retransmission puts the first unacked segment in front of unsent; the thresholds fit 16 bits |
| Transmission.OutputRestores | src/tcp_out.c:1059-1083 | the following `tcp_output` puts it back in its place on unacked |
| Transmission.WriteAfterRexmit | src/tcp_out.c:437-531 | when a `tcp_write` in between keeps the tiling: if and only if it fails or does not extend the retransmitted segment over others; and when the extended segment is still genuine |
| Acknowledgement.AckKeeps | src/tcp_in.c:911-1131 | every ACK: `lastack` moves exactly to something sent and unacknowledged, `acked` counts exactly the payload newly covered (FIN excluded), the queues again hold the stream from there |
| Acknowledgement.DropCountsFin | src/tcp_in.c:1064-1069 | the FIN is subtracted exactly when it is acknowledged |
| Acknowledgement.DropCovers | src/tcp_in.c:1052-1080 | what remains starts with the segment that holds the acknowledged offset |
| Acknowledgement.DupAckKeeps | src/tcp_in.c:969-1001 | a duplicate ACK inflates the window or retransmits, and changes nothing else |
| Acknowledgement.NeverSentAnswered | src/tcp_in.c:1092-1096 | an ACK for something never sent moves nothing and is answered |
| Acknowledgement.OthersResetCount | src/tcp_in.c:969-1001 | an ACK for nothing new that is no duplicate restarts the count and changes no more |
| Congestion.SlowStart | src/tcp_in.c:1031-1035 | in any run, below `ssthresh`, n ACKs for new data add exactly n segments, as far as 16 bits hold them |
| Congestion.CongestionAvoidance | src/tcp_in.c:1037-1041 | from `ssthresh` on the ACKs of one window add at most one segment, and each at least one byte |
| Congestion.RecoveryEnds | src/tcp_in.c:1005-1012 | the first ACK for new data after a fast retransmission continues from `ssthresh` |
| Congestion.FastRecovery | src/tcp_in.c:969-994 | in any run of duplicates: two change nothing, the third halves the window, and after n of them it is inflated by n segments |
| Congestion.TimeoutShrinks | src/tcp.c:946-974 | the timer leaves a window of one segment, of which only that much is sent, and a threshold of half the smaller window |
| Congestion.SlowStartAfterTimeout | src/tcp.c:964-974 | then n ACKs make the window n + 1 segments, up to the threshold |
| Congestion.FirstAckAfterTimeout | src/tcp_in.c:1005-1012 | that the first ACK does so if and only if no fast retransmission was under way |
| Congestion.TimerArmed | src/tcp_in.c:1082-1088 | after every run the retransmission timer is running whenever something is unacked |
| Congestion.EdgeLearned | src/tcp_in.c:914-925 | the right edge the sender knows is the larger of what it knew and what the ACK says, however late that comes; no other step moves it |
| SendSegments.InsertInOrder | src/tcp_out.c:1311-1319 | the insertion loop puts a segment in front of the first that does not start earlier |
| Sender.TcpSender.TcpWrite | src/tcp_out.c:364-733 | the three phases with their local variables, the commit, and the way back on failure, as `WriteLaws` describes their outcome |
| Sender.TcpSender.PlanTail | src/tcp_out.c:437-531 | phases 1 and 2: what goes into the oversized tail and into a chained buffer; together all that the last segment has room for (`WriteLaws.PlanTakes`) |
| Sender.TcpSender.NewSegments | src/tcp_out.c:533-635 | phase 3: it succeeds if and only if memory and `TCP_SND_QUEUELEN` allow all segments |
| Sender.TcpSender.TcpSendFin | src/tcp_out.c:135-158 | the FIN on the last unsent segment or enqueued |
| Sender.TcpSender.TcpOutput | src/tcp_out.c:948-1101 | the loop with its unsigned window test, Nagle, and the tail pointer of unacked sends what `OutputLaws` says |
| Sender.TcpSender.TcpRexmit | src/tcp_out.c:1300-1334 | the first unacked segment goes to its place on unsent |
| Sender.TcpSender.RetransmissionTimeout | src/tcp.c:946-974 | thresholds, then everything unacked goes back to unsent |
| Sender.TcpSender.ReceiveAck | src/tcp_in.c:911-1131 | the ACK half of `tcp_receive` on the PCB fields, with the windows of `Congestion` |
| Sender.TcpSender.DropUnackedSegments | src/tcp_in.c:1052-1080 | the loop over unacked with its 16-bit counters |
| Sender.TcpSender.DropUnsentLoop | src/tcp_in.c:1098-1131 | the loop over unsent |
| LocalMss.UpdateKeepsTail | src/tcp_out.c:384-448 | which window updates keep the assertions about the last unsent segment: exactly those that do not shrink `mss_local` below it |
| Sender.InvariantInReach | include/lwip/tcp_impl.h:100-108 | in every state of a run, also during a fast retransmission, the numbers the send half compares are less than 2^31 apart |
| EndToEnd.AcceptedIsPrefix | src/tcp_in.c:1165-1418 | after every run the accepted bytes are a prefix of the written ones; EOF at most once and after all of them |
| EndToEnd.NothingLost | src/tcp_in.c:1002-1131 | after every run `lastack <= rcv_nxt <= snd_nxt`, every acknowledged byte has arrived, every other one is still queued |
| EndToEnd.SenderAccounts | src/tcp_out.c:304-346 | after every run `snd_buf`, `snd_queuelen` and the tiling agree |
| EndToEnd.SentStaysInside | src/tcp_out.c:970-1015 | after every run everything unacked lies inside the window the sender knows, which the receiver has announced |
| EndToEnd.RetransmittedFits | src/tcp_out.c:1345-1382 | the window always admits the segment a fast retransmission puts in front |
| EndToEnd.FinWait2Means | src/tcp_in.c:799-801 | which ACK leads to FIN_WAIT_2, and exactly when it acknowledges the FIN |
| NotableRuns.FinNeverSent | src/tcp_in.c:799-801 | a run that reaches FIN_WAIT_2 with data and FIN unsent |
| EndToEnd.TailAlwaysFits | src/tcp_out.c:384-448 | after every run that starts with a window of at least 2 the assertions of `tcp_write` hold and everything queued fits `mss_local` |
| NotableRuns.TailMayNotFit | src/tcp_out.c:384-448 | a run that starts with a window of 0 or 1 and ends where the next `tcp_write` fails its assertion |
| NotableRuns.ByteArrives | src/tcp_in.c:352-380 | a run that delivers |
| WireRuns.EdgeReached | src/tcp.c:628-651 | after every run `rcv_nxt` is at most one past the announced edge, so their 32-bit comparison is exact |
| WireRuns.Connection.PrefixDelivered | src/tcp_in.c:287-418 | on 32-bit fields, after any calls in any order: what was accepted is a prefix of what was written, and EOF comes once and last |
| WireRuns.Connection.NothingForgotten | src/tcp_in.c:1002-1131 | on 32-bit fields: what `lastack` stands for is at most what `rcv_nxt` stands for, and every byte before it was received |
| WireRuns.Connection.WriteData | src/tcp_out.c:364-733 | `tcp_write` on the sender is the step of the run, and appends to what was written; its assertions hold |
| WireRuns.Connection.Timeout | src/tcp.c:946-974 | the retransmission timer and its `tcp_output` are the step of the run; the segments put on the wire are the images of those sent |
| WireRuns.Connection.AckArrives | src/tcp_in.c:911-1131 | an arriving 32-bit acknowledgement, fast retransmission and the final `tcp_output` included, is the step of the run |
| WireRuns.Connection.DataArrives | src/tcp_in.c:287-418 | so is an arriving 32-bit segment, with the acknowledgement that leaves at the end |
| WireRuns.Connection.FastTimer | src/tcp.c:1148-1167 | so is the delayed acknowledgement of the fast timer |
| Mailbox.FirstInFirstOut | src/sys_arch.c:193-347 | any number of threads, every interleaving: at most 127 messages, first in first out, none lost or duplicated, one thread in a critical section |
| Mailbox.NoDeadlock | src/sys_arch.c:230-347 | when nothing moves, nobody waits for the mutex, a sleeping fetcher sleeps over an empty ring with no poster asleep, and sleeping posters have left messages to fetch |
| Mailbox.RoomMissedStep | src/sys_arch.c:236-259 | exactly which steps leave posters asleep over room with nobody about to signal them, and which end it |
| Mailbox.SleepsOverRoom | src/sys_arch.c:230-347 | when nothing moves, a poster sleeps over a ring with room if and only if such a step was taken and nobody came to look since |
| Mailbox.PosterSleepsOverRoom | src/sys_arch.c:230-347 | a run, for any three threads, in which two fetches in a row wake one of two posters and the other sleeps on |
| Mailbox.StepFetcher | src/sys_arch.c:213-225 | a sleeping fetcher over a non-empty ring has been or is about to be signalled, although `not_empty` saturates |
| Mailbox.StepPosters | src/sys_arch.c:242-248 | counted posters over an empty ring have been or are about to be signalled |
| Mailbox.TwoFetchersLoseWakeup | src/sys_arch.c:308-327 | with any two fetchers and a poster among any threads, one fetcher sleeps on over a message |
| PbufPool.Pool.Free | src/pbuf.c:640-727 | exactly the maximal run of buffers that nothing else references is released, the next one loses one reference |
| PbufPool.Pool.Ref | src/pbuf.c:755-765 | one more external reference |
| PbufPool.Pool.Cat | src/pbuf.c:778-800 | the bytes concatenate, the cached lengths stay right, the caller's reference becomes a next pointer, and no buffer outside the head chain changes |
| PbufPool.Pool.Chain | src/pbuf.c:818-824 | the same, and the caller keeps its reference |
| PbufPool.Pool.Dechain | src/pbuf.c:835-864 | the head alone; the rest is dereferenced, and if it lives it is the same chain with its bytes; what is returned is live exactly when nothing was freed |
| PbufPool.Pool.Realloc | src/pbuf.c:430-492 | the chain becomes its own prefix; what is cut off is dereferenced, and nothing else changes |
| PbufPool.Pool.Copy | src/pbuf.c:884-936 | the front of the target becomes the source, or nothing changes; no other buffer changes |
| PbufPool.Pool.CopyPartial | src/pbuf.c:950-986 | the bytes from an offset on, at most so many |
| PbufPool.Pool.Take | src/pbuf.c:1073-1102 | the data overwrites the front, exactly if it fits |
| PbufPool.Pool.TakeAt | src/pbuf.c:1114-1135 | the data overwrites from an offset on, exactly if it fits; no other buffer changes |
| PbufPool.Pool.Skip | src/pbuf.c:1046-1062 | the buffer an offset lies in |
| PbufPool.Pool.TrimFront | src/tcp_in.c:1221-1247 | the front trim over several buffers drops exactly so many bytes and repairs the cached lengths; no other buffer changes |
| PbufChains.TakenIsCopied | src/pbuf.c:1114-1135 | what was put in is read back, and no other byte has changed |
| PbufChains.NoQueue | src/pbuf.c:924-933 | the packet-queue checks of `pbuf_copy` never fire on chains without empty buffers |
| PbufHeap.OtherChains | src/pbuf.c:778-864 | a chain that shares no buffer with the one an operation changes keeps its buffers and bytes |
| PbufHeap.TotLenIsLength | src/pbuf.c:844-847 | the cached length is the length of the byte string |
| PbufHeap.ReleaseKeepsRefs | src/pbuf.c:640-727 | freeing keeps every count equal to the next pointers and external references to it, and nothing points to a freed buffer |
| PcbLists.AxiomsMean | include/lwip/tcp_impl.h:363-368 | the four axioms of the header |
| PcbLists.Lists.Bind | src/tcp.c:441-505 | binding registers the PCB in front of the bound ones, or changes nothing; the axioms hold afterwards if and only if it failed or the PCB was not bound yet |
| PcbLists.Lists.Listen | src/tcp.c:536-586 | the PCB is replaced by a listening one; every other PCB and list stays |
| PcbLists.Lists.Connect | src/tcp.c:762-872 | from bound or unlisted to active, exactly if a port and memory are found; every other PCB and list stays |
| PcbLists.Lists.Input | src/tcp_in.c:183-207 | move to front, and on to TIME-WAIT or out of all lists; every other PCB stays where it is |
| PcbLists.Lists.ListenInput | src/tcp_in.c:472-554 | a SYN adds an active PCB, which is abandoned again if its SYN+ACK cannot be enqueued |
| PcbLists.Lists.Close | src/tcp.c:174-270 | every state's way to close, with all four lists and all other PCBs |
| PcbLists.Lists.Abandon | src/tcp.c:358-411 | off whatever list it is on |
| PcbLists.Lists.TimerRemove | src/tcp.c:1049-1063 | the timer's removal |
| PcbLists.TcpRmv | include/lwip/tcp_impl.h:414-430 | the unlinking loop removes the first occurrence |
| PcbLists.ListedAgrees | include/lwip/tcp_impl.h:363-368 | the states of the data engine are those of the lists, and active means the same |
| PcbLists.BindOnce | src/tcp.c:441-505 | registering keeps the axioms if and only if the PCB is not bound yet |
| PortAllocation.PortAllocator.TcpNewPort | src/tcp.c:705-728 | the first free port behind the last one, cyclically; 0 exactly if all 0x4000 are taken |
| PortAllocation.Visited | src/tcp.c:705-728 | the cyclic search reaches every dynamic port |
| RttEstimator.Estimator.Measured | src/tcp_in.c:1140-1161 | one measurement in 16-bit arithmetic, without overflow, within the bounds |
| RttEstimator.ExponentialAverages | src/tcp_in.c:1140-1161 | estimate and deviation are exponential averages with gains 1/8 and 1/4, up to rounding |
| RttEstimator.LearnsConstant | src/tcp_in.c:1140-1161 | a constant round-trip time of m ticks is learned exactly after 8 m samples |
| RttEstimator.AlwaysBounded | src/tcp_in.c:1140-1161 | the bounds hold over every sequence of samples |
| RttEstimator.BoundedUpTo4095 | src/tcp_in.c:1140-1161 | from the initial values, all runs with samples of at most m ticks stay bounded if and only if m is at most 4095 |
| TimeoutList.Timeouts.SysTimeout | src/timers.c:329-389 | exactly one deadline is added, behind all that are not later |
| TimeoutList.Timeouts.SysUntimeout | src/timers.c:399-426 | the first match is removed and no other deadline moves |
| TimeoutList.Timeouts.Waited | src/timers.c:563-572 | waiting shortens all deadlines alike |
| TimeoutList.Timeouts.Expire | src/timers.c:531-562 | the first timeout leaves, the others are then relative to that moment |
| TimeoutList.DeadlinesSorted | src/timers.c:353-389 | the deadlines a list stands for are in order |

## Left out

- The three-way handshake, SYN on data segments, RST handling, zero-window probes, keepalive, the persist timer, urgent data, the PSH flag, and the `nrtx` and RTT bookkeeping inside acknowledgement processing; the system starts after the handshake, with the sender knowing the window the receiver announced.
- Window scaling, timestamps, ooseq limits, checksum on copy, custom buffers, `pbuf_split_64k` and everything else the shipped configuration compiles out.
- Data, and a FIN, in both directions at once: in `EndToEnd` the receiver only acknowledges, so acknowledgements carry one sequence number and no data.
- Liveness of the connection: nothing says that data eventually arrives.
- A link failure at the very first transmission after a fast retransmission, in `EndToEnd`; every other failure of the link is covered.
- A call of `tcp_write` whose assertion about the last unsent segment fails: in `EndToEnd` it changes nothing.
- WireRuns.Connection.AckArrives: an acknowledgement more than 2^29 bytes old is excluded, as is data about 2^31 bytes old; the 32-bit numbers do not tell them from new ones.
- Transmission errors of empty ACKs are losses in the network.
- Zero-copy data is treated as copied: the application does not change it before it is acknowledged. `MEM_ALIGNMENT` is 1, so oversized buffers are not rounded up.
- Payload placement in memory: a buffer's bytes are a sequence, and TCP headers are records. Lists of segments and of PCBs are sequences in fields of a class, so aliasing between them is not modelled; the pbuf heap is a map from addresses to records, with aliasing.
- Closing or calling the API from inside callbacks; leaving the active states drops refused data, as the code does, and what was accepted is then still a prefix.
- ReceiverSpec.InputKeeps: it says nothing of segments for a PCB in TIME-WAIT, which `tcp_timewait_input` answers without touching the data path.
- Receiver.TcpReceiver.TcpReceive: segments whose length, FIN included, is 0xffff or more are excluded, because `TCP_TCPLEN` would not fit the 16-bit variable; a UDP datagram cannot carry one.
- Receiver.TcpReceiver.TcpRecved: the assertion that a wrapped window stops the program is not modelled; the code goes on with the wrapped value.
- Mailbox.FirstInFirstOut: `first` and `last` are unbounded; the C `int` overflows after 2^31 messages. Freeing a mailbox and allocation failures in creating one are not modelled.
- PbufPool.Pool.Cat: `tot_len` and `ref` are unbounded; a chain of 65536 bytes or a buffer with 65536 references would wrap the 16-bit fields.
- PbufPool.Pool.Copy: only between chains without empty buffers; the checks for packet queues and for a target that runs out are left out, because they never fire there.
- PbufPool.Pool.Realloc: `q->next` is cleared before the rest is freed, the code does it the other way round; the two do not interact. `mem_trim` changes no byte that is kept.
- PcbLists.Lists.Bind: for a PCB that is bound already the list holds it twice; the C list would become a cycle.
- The NO_SYS branch of the timers, `memp.c`, sockets, statistics and the demonstration layer.
- The uniqueness of server ids, which `tcp_new_server_id` does not provide.
