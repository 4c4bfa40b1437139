# Verified models of the gm-quic state machines

A Dafny model of the parts of gm-quic (RFC 9000, RFC 9002, RFC 9221) that carry state across calls,
with proofs about every run of them:

- **Connection identifiers.** The CIDs a peer gives us (`RemoteCidSpec`, `RemoteCidProofs`, `RemoteCidLaws`,
  `RemoteCid`), the same at the granularity of their locks (`RemoteCidTurns`),
  the CIDs we give out (`LocalCidSpec`, `LocalCid`), the table that routes packets by CID (`Routing`), and
  both ends joined by a network (`CidPair`, `CidLimitExample`).
- **Loss recovery.** Acknowledgement and loss detection in one packet number space (`PacketSpec`,
  `PacketProofs`, `Packets`), NewReno (`NewRenoSpec`, `NewReno`), and the controller with three spaces and
  one timer (`CongestionSpec`, `CongestionProofs`, `CongestionLaws`, `Congestion`).
- **Flow control** of a connection, sender and receiver joined by a network (`FlowSpec`, `Flow`).
- **The connection's life cycle** under threads (`ConnState`, `ConnLaws`, `Lifecycle`).
- **Codecs.** Variable-length integers (`Varint`), ACK (`AckFrame`), CRYPTO (`CryptoFrame`) and DATAGRAM
  frames with their queue (`Datagram`).

Each `...Spec` module gives the operations as functions on values. The `...Laws` modules say what those
functions mean in terms of the calls made and the frames and packets exchanged, with the constants of the
source written out. The run theorems are stated over
`Run` functions that fold any sequence of steps, in any order; a step that is not possible changes
nothing. Objects the source updates in place are classes whose methods are proved to have exactly the
effect of those functions, so the run theorems are about them too. Fields named `trace`, `log`, `told`,
`credits` or `committed` only record what happened.

Inputs from outside are parameters: the clock, random CID candidates, the path flags, the result of an
RTT update, and the writes of other threads. Integers are unbounded unless a wrap or an unchecked
subtraction matters; where the source subtracts without a check, the proofs show that it cannot
underflow.

## Where code and documentation differ

The model follows the code.

- `be_crypto_frame` tests offset plus offset where offset plus length is meant. `CryptoFrames.MisjudgedIff`
  says on exactly which frames that gives the wrong answer.
- `base_pto` backs off the variance term only; its comment scales the sum.
  `CongestionProofs.WholePeriodDoublesIff` says exactly when the two agree, `WholePeriodFails` gives a case.
- `on_congestion_event` takes one datagram off the window where its comment multiplies by a reduction
  factor. `NewRenoSpec.HalvesIff` says exactly when the results agree, `HalvingFails` gives a case.
- `on_packet_sent` gives the space a loss time at once, so the first timeout is a loss timeout although
  nothing has been acknowledged. The comment on `on_loss_detection_timeout` asserts that such a timeout
  finds a lost packet; `CongestionProofs.TimeoutFindsLossIff` says exactly when it does.
- A missing largest acknowledged number is read as zero, so packet zero can be declared lost before any
  acknowledgement, against section 6.1 of RFC 9002: `PacketProofs.LostBeforeAnyAckIff`. Both cases occur
  in the two-step runs of `CongestionProofs.FirstTimeout`.
- `on_datagram_rcvd` is documented to arm the probe timer when a datagram unblocks the server. It looks at
  the timer only while the limit still holds: `CongestionProofs.DatagramArmsIff`, with a run in
  `DatagramDoesNotArm`.
- The first window is documented as `min(10*MSS, max(2*MSS, 14600))` and computed in 16 bits, which wraps
  around for large datagrams. `NewRenoSpec.FirstWindowIff` says exactly for which sizes the two agree,
  `FirstWindowFails` gives two sizes for which they do not, and `CongestionProofs.NeverFailsIff` says for
  which sizes the algorithm can then fail. Every connection starts with 1200 bytes
  (qconnection/src/path.rs:67), where they agree; other sizes reach the controller only through the public
  constructor of `PathStatus`.
- `DatagramWriter::send_bytes` counts a one-byte header, the receiver the header as sent, so an accepted
  payload can end the connection. `Datagrams.RejectedIff` says exactly when for a given packet,
  `Datagrams.ReceivedAnywayIff` which payloads are received from every packet.
- Two peers that respect the CID limit can still run into it: `CidLimitExample.HonestPairCanHitLimit` is a
  run that does. `CidPair.RejectedIff` says of each frame exactly when it is rejected,
  `CidPair.LimitErrorIff` says it of whole runs, and `CidPair.InOrderIsSafe` gives an order of retirement
  that is always safe.
- Clearing local CIDs again when a connection is dropped can remove entries of another connection:
  `Routing.SecondClearCanMisroute` shows it, `Routing.SecondClearIff` says exactly when it is harmless.
- Connection-level flow control with an initial limit below two bytes stops for good:
  `FlowSpec.KeepsMovingIff`.

## Assumptions about callers

Packet numbers ascend within a space; what elicits an acknowledgement is in flight; a cell has at most one
outstanding borrow; the initial CID is revised only while it is stored and the cell that uses it is live
and assigned (`CanRevise`; the source panics otherwise); a NEW_CONNECTION_ID frame has
`retire_prior_to <= sequence` (its parser checks it); the application space is not discarded; the MTU of a
path is constant; the acknowledgement delay is fixed when the controller is made, and a handshake once
confirmed stays so.

One assumption is about the peer: the ranges of an ACK frame do not fall below zero. Neither the parser nor
the walk checks it; `AckFrames.ParserAcceptsIllFormed` shows frames that pass the parser and break it.

## Model

| member | source | states |
|---|---|---|
| `IndexDeques.IndexDeque.DrainTo` | qbase/src/util/index_deque.rs:368-378 | draining to an index leaves exactly the entries from that index on, at their indices |
| `IndexDeques.IndexDeque.Insert` | qbase/src/util/index_deque.rs:432-449 | an insertion beyond the end fills the gap with empty slots and changes no other index |
| `RemoteCidSpec.Arrange` | qbase/src/cid/remote_cid.rs:125-155 | assignment stops only when nobody waits or the next CID is missing |
| `RemoteCidProofs.RetirePriorToPreserves` | qbase/src/cid/remote_cid.rs:160-206 | retiring all below a mark keeps store, queues and ledger: cells that lose their CID queue up again, skipped sequences are retired once |
| `RemoteCidProofs.LedgerReading` | qbase/src/cid/remote_cid.rs:125-206 | retirement ledger: each sequence below the cursor is held by exactly one cell, a live one, or has had exactly one RETIRE_CONNECTION_ID, never both; none at or above the cursor |
| `RemoteCidProofs.ReachableInv` | qbase/src/cid/remote_cid.rs:52-214 | ledger, queue and store agreement, eager assignment and the bound on the store hold after every run of all operations |
| `RemoteCidProofs.ReachableAgreement` | qbase/src/cid/remote_cid.rs:89-155 | after every run without a conflicting frame each live ready cell uses the CID stored at its own index |
| `RemoteCidProofs.AgreementIff` | qbase/src/cid/remote_cid.rs:89-121 | a frame keeps that agreement if and only if it does not replace the CID of an assigned live sequence by another |
| `RemoteCidProofs.ApplyServesAtOnce` | qbase/src/cid/remote_cid.rs:209-214 | with the next CID in store and nobody waiting, an application gets exactly that CID |
| `RemoteCidProofs.BorrowSafety` | qbase/src/cid/remote_cid.rs:330-372 | from borrow to drop the borrowed sequence is not retired, whatever other calls come between, unless the cell itself is retired |
| `RemoteCidProofs.BorrowThenDrop` | qbase/src/cid/remote_cid.rs:345-355 | a borrow returns the head CID and its drop retires exactly the other held sequences |
| `RemoteCidLaws.StoredIff` | qbase/src/cid/remote_cid.rs:89-121 | a frame within the limit and not below the store is kept, however far ahead, its token returned, and every slot of the new store is given; one beyond the limit is an error, one below the store is ignored, and both change nothing |
| `RemoteCidLaws.KnownStays` | qbase/src/cid/remote_cid.rs:89-206 | a CID in store stays there through every call until a retire-prior-to drops it |
| `RemoteCidLaws.ServedInOrder` | qbase/src/cid/remote_cid.rs:125-155 | waiting cells are served first come, first served, retired ones skipped |
| `RemoteCidLaws.ApplyWaitsItsTurn` | qbase/src/cid/remote_cid.rs:209-214 | a new cell queues behind all others |
| `RemoteCidLaws.RequeuedInOrder` | qbase/src/cid/remote_cid.rs:160-206 | cells whose sequence is retired queue up behind those waiting, in the order of their sequences |
| `RemoteCidLaws.ReviseReplaces` | qbase/src/cid/remote_cid.rs:73-80 | the first CID is replaced in the store and in its cell, which then lends it, and nothing else changes |
| `RemoteCidLaws.BorrowOverRun` | qbase/src/cid/remote_cid.rs:330-343 | over every run a borrow reports the end if and only if the cell was retired, waits only while the cell is queued and the next CID is missing, and otherwise lends the CID given last; without a loan nothing changes |
| `RemoteCidLaws.LendsUntilRetired` | qbase/src/cid/remote_cid.rs:306-372 | a cell that lends keeps lending through every run that does not retire it |
| `RemoteCidLaws.DropsOldestFirst` | qbase/src/cid/remote_cid.rs:345-355 | over every run a drop retires all but the newest sequence of the cell, oldest first |
| `RemoteCidTurns.LedgerBetweenTurns` | qbase/src/cid/remote_cid.rs:125-206 | the retirement ledger in every state between two turns of the loops, with any borrow, drop or retirement of cells in between; a frame's skipped sequences are the only ones below the cursor not yet accounted for |
| `RemoteCidTurns.IdleSatisfiesInv` | qbase/src/cid/remote_cid.rs:89-214 | whenever no call is under way, all invariants between whole calls hold, whatever paths did during the calls |
| `RemoteCidTurns.BorrowSafetyBetweenTurns` | qbase/src/cid/remote_cid.rs:306-372 | borrow safety at the same granularity |
| `RemoteCidTurns.CallsEnd` | qbase/src/cid/remote_cid.rs:125-206 | every turn brings a call closer to its end, and no path puts that off |
| `RemoteCidTurns.UndisturbedIsAtomic` | qbase/src/cid/remote_cid.rs:89-214 | a call that no path disturbs has the effect of one step of the specification |
| `RemoteCidProofs.RetirePreserves` | qbase/src/cid/remote_cid.rs:357-372 | retiring a cell keeps all invariants, the ledger included |
| `RemoteCid.CidCell.Assign` | qbase/src/cid/remote_cid.rs:306-322 | has exactly the effect of the specified assignment on cell and frames sent |
| `RemoteCid.CidCell.Revise` | qbase/src/cid/remote_cid.rs:324-328 | replaces the CID of the first entry only |
| `RemoteCid.CidCell.BorrowCid` | qbase/src/cid/remote_cid.rs:330-343 | lends the first CID, waits, or reports retirement, and marks the cell in use |
| `RemoteCid.CidCell.Renew` | qbase/src/cid/remote_cid.rs:345-355 | keeps the first entry and retires the others from the back |
| `RemoteCid.CidCell.Retire` | qbase/src/cid/remote_cid.rs:357-372 | retires once; a second call changes nothing |
| `RemoteCid.RemoteCids.ArrangeIdleCid` | qbase/src/cid/remote_cid.rs:125-155 | the loop over shared cells refines `Arrange` |
| `RemoteCid.RemoteCids.RetirePriorTo` | qbase/src/cid/remote_cid.rs:160-206 | the in-place requeueing of ready cells refines `RetirePriorTo` |
| `RemoteCid.RemoteCids.RecvNewCidFrame` | qbase/src/cid/remote_cid.rs:89-121 | refines the specified reception, of which `StoredIff` gives result and store exactly, and keeps all invariants |
| `RemoteCid.RemoteCids.ApplyDcid` | qbase/src/cid/remote_cid.rs:209-214 | refines the specified application and keeps all invariants |
| `RemoteCid.RemoteCids.ReviseInitialDcid` | qbase/src/cid/remote_cid.rs:73-80 | revises the first CID in store and in its cell together |
| `RemoteCid.RemoteCids.constructor` | qbase/src/cid/remote_cid.rs:52-68 | starts in a state that satisfies the invariants |
| `RemoteCid.BorrowCid` | qbase/src/cid/remote_cid.rs:413-423 | borrowing through the shared handle refines the borrow of the whole store |
| `RemoteCid.DropBorrowed` | qbase/src/cid/remote_cid.rs:455-461 | dropping a borrow refines the renewal of the whole store |
| `RemoteCid.RetireCell` | qbase/src/cid/remote_cid.rs:427-429 | retiring a handle refines the retirement of the whole store |
| `LocalCidSpec.RetirePriorToIsLowest` | qbase/src/cid/local_cid.rs:103-128 | a replacement frame carries the next sequence and, as retire-prior-to, the lowest sequence still usable |
| `LocalCidSpec.SetLimitPreserves` | qbase/src/cid/local_cid.rs:72-88 | keeps the invariants; the usable CIDs reach the limit if and only if it is two or no CID beyond the first two was issued before |
| `LocalCidSpec.ReachableInv` | qbase/src/cid/local_cid.rs:40-128 | after every run: consecutive sequences, monotone retire-prior-to, between two and limit usable CIDs |
| `LocalCidSpec.RetireRefusedIff` | qbase/src/cid/local_cid.rs:103-115 | after every run a retirement is refused, without effect, if and only if its sequence is not zero and no frame sent carries it |
| `LocalCidSpec.LimitRefusedIff` | qbase/src/cid/local_cid.rs:72-88 | a limit below two is refused without effect; any other is recorded and filled up to |
| `LocalCidSpec.UsableIff` | qbase/src/cid/local_cid.rs:91-128 | after every run the usable CIDs are exactly those issued and not retired since, each with the CID and token the peer was told |
| `LocalCid.LocalCids.constructor` | qbase/src/cid/local_cid.rs:40-61 | starts with two usable CIDs and one frame |
| `LocalCid.LocalCids.IssueNewCid` | qbase/src/cid/local_cid.rs:91-99 | refines issuing, on deque, frames and router table |
| `LocalCid.LocalCids.SetLimit` | qbase/src/cid/local_cid.rs:72-88 | refines setting the limit, refusals included |
| `LocalCid.LocalCids.RecvRetireCidFrame` | qbase/src/cid/local_cid.rs:103-128 | refines retirement, whose refusals `RetireRefusedIff` and whose effect `UsableIff` give exactly |
| `LocalCid.LocalCids.Clear` | qbase/src/cid/local_cid.rs:130-134 | removes exactly the usable CIDs from the router table |
| `LocalCid.RouterRegistry.GenUniqueCid` | qinterface/src/router.rs:345-359 | registers the first vacant candidate |
| `LocalCid.RouterRegistry.RetireCid` | qinterface/src/router.rs:366-368 | removes one entry and no other |
| `Routing.AllMintedVacant` | qinterface/src/router.rs:345-359 | each CID the generator returns in turn is vacant when it is registered |
| `Routing.ReachableRouted` | qinterface/src/router.rs:345-368 | in every run over any number of connections the table routes exactly the usable CIDs, each to its issuer |
| `Routing.LiveCidsDisjoint` | qinterface/src/router.rs:345-359 | no two connections share a usable CID |
| `Routing.SecondClearIff` | qbase/src/cid/local_cid.rs:130-144 | clearing once more keeps routing exact if and only if none of the remembered CIDs is in the table |
| `Routing.SecondClearCanMisroute` | qbase/src/cid/local_cid.rs:130-144 | a run after which a second clear breaks routing |
| `CidPair.HonestPair` | qbase/src/cid/remote_cid.rs:89-206 | two honest ends over a network that loses, repeats and reorders: retirements are always accepted, retire-prior-to never covers a held or unassigned sequence, cells use the CIDs as issued |
| `CidPair.AssignmentIsFinal` | qbase/src/cid/remote_cid.rs:160-206 | between honest ends only retiring a cell itself gives up its sequence or sends anything |
| `CidPair.AllArrivedServes` | qbase/src/cid/remote_cid.rs:89-155 | once every issued frame has arrived at least once, in any order, none beyond the limit: every issued sequence from the store's offset on is in store as issued, and a cell waits only if all issued sequences are handed out |
| `CidPair.LowestOtherIsLowest` | qbase/src/cid/local_cid.rs:117-120 | the slot behind the leading empty ones, once a sequence is taken, is the lowest other usable sequence |
| `CidPair.RejectedIff` | qbase/src/cid/remote_cid.rs:95-107 | the frame answering a retirement is rejected if and only if, before the call, more than limit sequences lie from the lowest other usable one up to the next to be issued |
| `CidPair.FirstFrameRejectedIff` | qbase/src/cid/local_cid.rs:46-49 | the first frame is rejected only by a limit of zero |
| `CidPair.LimitFramesAccepted` | qbase/src/cid/local_cid.rs:83-86 | no frame issued on learning a limit of two or more is rejected |
| `CidPair.LimitErrorIff` | qbase/src/cid/remote_cid.rs:95-107 | in every run of an honest pair a rejectable frame exists if and only if a retirement of that kind was delivered |
| `CidPair.InOrderIsSafe` | qbase/src/cid/local_cid.rs:103-128 | if every retirement delivered names the lowest usable sequence, no frame of the run is rejected |
| `CidLimitExample.HonestPairCanHitLimit` | qbase/src/cid/local_cid.rs:103-128 | a run of honest ends that ends in a limit error with two usable CIDs, for any four different CIDs, each vacant when it is drawn, the router ending with the same issuer |
| `Varint.DecodeEncode` | qbase/src/varint.rs:190-202 | reading what was written at any permitted width gives the value and the following bytes |
| `Varint.EncodeDecode` | qbase/src/varint.rs:190-202 | every accepted input is an encoding of the value read, followed by the rest |
| `Varint.WireFormat` | qbase/src/varint.rs:238-272 | the width is in the top two bits of the first byte, the value below, high bytes first |
| `Varint.Examples` | qbase/src/varint.rs:190-251 | examples of section A.1 of RFC 9000, byte for byte |
| `Varint.PutIsShortest` | qbase/src/varint.rs:74-87 | the writer uses the least size any permitted width has |
| `Varint.DecodeAllPut` | qbase/src/varint.rs:190-272 | a list of values written in a row reads back whole |
| `Varint.Buf.PutVarint` | qbase/src/varint.rs:238-251 | appends exactly the shortest encoding |
| `AckFrames.EncodedSize` | qbase/src/frame/ack.rs:49-70 | the bytes written are as many as `encoding_size` says and at most `max_encoding_size` |
| `AckFrames.WireFormat` | qbase/src/frame/ack.rs:228-249 | type byte 0x03 with counts and 0x02 without; then largest, delay, count, first range, each range as gap and length, and the three counts |
| `AckFrames.PutFrame` | qbase/src/frame/ack.rs:228-249 | the writer appends exactly the encoding |
| `AckFrames.ParseRangesLoop` | qbase/src/frame/ack.rs:184-216 | the counting loop of the parser computes the recursive reading, cut-off inputs included |
| `AckFrames.ParseEncode` | qbase/src/frame/ack.rs:184-249 | parsing what was written returns the frame and leaves the following bytes |
| `AckFrames.ParserAcceptsIllFormed` | qbase/src/frame/ack.rs:128-216 | frames whose ranges fall below zero that the parser returns, first range and later step |
| `AckFrames.RangesDescend` | qbase/src/frame/ack.rs:128-142 | `iter` yields strictly descending, disjoint, non-adjacent ranges from the largest on |
| `AckFrames.FrameIsDetermined` | qbase/src/frame/ack.rs:128-142 | frames with equal ranges, delay and counts are equal |
| `AckFrames.EveryRangeListHasAFrame` | qbase/src/frame/ack.rs:128-142 | every descending list of ranges is what some well-formed frame yields |
| `PacketProofs.AckIsMembership` | qcongestion/src/packets.rs:170-221 | newly acknowledged packets are exactly the tracked unacknowledged ones in the ranges, largest first; the result names the largest and the ack-eliciting flag, and is absent exactly when there are none |
| `PacketProofs.DropPreserves` | qcongestion/src/packets.rs:209-215 | popping finished packets from the front drops no packet in flight |
| `PacketProofs.DropDoneSuffix` | qcongestion/src/packets.rs:209-215 | exactly the finished packets before the first one in flight are popped |
| `PacketProofs.LossIsExact` | qcongestion/src/packets.rs:229-267 | reported lost, and marked, if and only if in flight, at or below the largest acknowledged number of the space, and too old or followed by enough tracked packets up to that number |
| `PacketProofs.DetectLeavesNone` | qcongestion/src/packets.rs:229-267 | no packet is overdue after detection |
| `PacketProofs.LossTimeIsExact` | qcongestion/src/packets.rs:256-265 | the loss time is the earliest deadline of the packets that wait, absent exactly without any, and not in the past |
| `PacketProofs.LargestIsMaximum` | qcongestion/src/packets.rs:166-168 | the larger of the two numbers is kept, and nothing else changes |
| `PacketProofs.FindsLossIff` | qcongestion/src/packets.rs:229-291 | detection reports something if and only if some tracked packet is overdue, in one call, which says persistent if and only if three neighbours are overdue |
| `PacketProofs.LostBeforeAnyAckIff` | qcongestion/src/packets.rs:240 | before any acknowledgement exactly packet zero can be reported lost, once it is too old |
| `PacketProofs.PassedDeadlineFindsLoss` | qcongestion/src/packets.rs:256-265 | a deadline that detection itself has set finds its packet once it has passed |
| `PacketProofs.LaterTracked` | qcongestion/src/packets.rs:241-253 | the index comparison counts the later tracked packets up to the largest acknowledged |
| `PacketProofs.DeadlineIsEarliest` | qcongestion/src/packets.rs:256-265 | the rebuilt loss time is the minimum of the survivors' deadlines, absent exactly without survivors |
| `PacketProofs.ExactlyOnce` | qcongestion/src/packets.rs:170-302 | over every run of send, ack, detect and discard a packet is in flight and untold, or left flight through exactly one callback; lost at most once, acknowledged at most once, never lost after acknowledged |
| `Packets.StreakIsPersistentLoss` | qcongestion/src/packets.rs:269-281 | the fold over lost positions finds a streak if and only if three lost packets are adjacent in the queue |
| `Packets.PersistentlyLost` | qcongestion/src/packets.rs:270-281 | the early-exit fold decides whether such a streak exists |
| `Packets.PacketSpace.UpdateLargestAckedPacket` | qcongestion/src/packets.rs:166-168 | keeps the maximum |
| `Packets.PacketSpace.OnAckRcvd` | qcongestion/src/packets.rs:170-221 | the walk with one descending cursor marks, reports and returns exactly what set membership says |
| `Packets.PacketSpace.DetectLostPackets` | qcongestion/src/packets.rs:229-291 | the pass over the queue refines exact loss detection and returns the lost numbers in order |
| `Packets.PacketSpace.Discard` | qcongestion/src/packets.rs:293-302 | reports exactly the packets in flight as removed and empties the space |
| `NewRenoSpec.FloorKept` | qcongestion/src/algorithm/new_reno.rs:89-204 | from a window of one datagram on, no callback but a removal can fail, and the window stays there; likewise for two datagrams |
| `NewRenoSpec.AckGrowsWindow` | qcongestion/src/algorithm/new_reno.rs:89-109 | an acknowledgement of a packet that counts and was sent outside a recovery period adds its bytes below the threshold and, rounded down, datagram size times bytes over window above it; any other adds nothing; bytes in flight fall only for a packet in flight |
| `NewRenoSpec.OneDatagramPerWindow` | qcongestion/src/algorithm/new_reno.rs:102-107 | above the threshold, acknowledging at most a whole window in however many packets adds at most one datagram |
| `NewRenoSpec.LossShrinksWindow` | qcongestion/src/algorithm/new_reno.rs:122-204 | losses cause exactly one reduction if one of them counts and was sent after the recovery period began, none otherwise; persistent loss sets the threshold to exactly half of the window so reached and ends the period; the window never grows and keeps two datagrams |
| `NewRenoSpec.EcnShrinksWindow` | qcongestion/src/algorithm/new_reno.rs:147-154 | a larger ECN count is remembered and acts like a loss, any other is ignored |
| `NewRenoSpec.HalvesIff` | qcongestion/src/algorithm/new_reno.rs:111-137 | exactly when taking one datagram off gives the documented threshold, and the documented window |
| `NewRenoSpec.HalvingFails` | qcongestion/src/algorithm/new_reno.rs:111-137 | ten datagrams of 1200 bytes become nine, not five |
| `NewRenoSpec.FirstWindowIff` | qcongestion/src/algorithm/new_reno.rs:37-42 | exactly for which 16-bit sizes the first window is the documented one |
| `NewRenoSpec.FirstWindowFails` | qcongestion/src/algorithm/new_reno.rs:37-42 | sizes 6554 and 8100 give windows of 4 and 15464 bytes where 14600 and 16200 are documented |
| `NewRenoSpec.StartsAtFloorIff` | qcongestion/src/algorithm/new_reno.rs:37-51 | the 16-bit sizes for which the first window is at least one datagram |
| `NewRenoSpec.AckKeepsBytes` | qcongestion/src/algorithm/new_reno.rs:89-96 | an acknowledgement leaves the count at the bytes still in flight; the saturating subtraction never saturates |
| `NewRenoSpec.DetectKeepsBytes` | qcongestion/src/algorithm/new_reno.rs:180-193 | likewise for losses |
| `NewRenoSpec.DiscardKeepsBytes` | qcongestion/src/algorithm/new_reno.rs:211-220 | likewise for a discarded space; the unchecked subtraction never underflows |
| `NewRenoSpec.SendKeepsBytes` | qcongestion/src/algorithm/new_reno.rs:56-58 | likewise for a packet sent |
| `NewRenoSpec.OneReductionPerRecovery` | qcongestion/src/algorithm/new_reno.rs:63-204 | in a recovery period no sequence of callbacks about packets sent before it began moves the window, so it is reduced once |
| `NewRenos.NewReno.constructor` | qcongestion/src/algorithm/new_reno.rs:37-51 | for every 16-bit size: an empty trace and the first window, wrap-around included; the object's invariant holds exactly when that window is at least one datagram |
| `NewRenos.NewReno.OnPacketSentCc` | qcongestion/src/algorithm/new_reno.rs:56-58 | the fields stay what the recorded callbacks make of them |
| `NewRenos.NewReno.OnPacketAcked` | qcongestion/src/algorithm/new_reno.rs:89-109 | likewise |
| `NewRenos.NewReno.OnCongestionEvent` | qcongestion/src/algorithm/new_reno.rs:122-137 | refines the specified congestion event |
| `NewRenos.NewReno.ProcessEcn` | qcongestion/src/algorithm/new_reno.rs:147-154 | the fields stay what the recorded callbacks make of them |
| `NewRenos.NewReno.OnPacketsLost` | qcongestion/src/algorithm/new_reno.rs:180-204 | the loop over lost packets refines the specified fold |
| `NewRenos.NewReno.RemoveFromBytesInFlight` | qcongestion/src/algorithm/new_reno.rs:211-220 | the loop refines the specified fold, given that it does not underflow |
| `CongestionProofs.BytesInFlight` | qcongestion/src/congestion.rs:100-124 | over every run of the controller no subtraction underflows, bytes in flight equal the sum over the counted packets in flight of all spaces, the window keeps one datagram, and two if it starts there |
| `CongestionProofs.NeverFailsIff` | qcongestion/src/algorithm/new_reno.rs:37-137 | no run of the controller makes an unchecked operation of the algorithm fail if and only if the first window is at least one datagram |
| `CongestionProofs.ToldIsTrace` | qcongestion/src/congestion.rs:100-468 | over every run the calls recorded for the three spaces are together exactly the calls made to the algorithm |
| `CongestionProofs.EveryPacketOnce` | qcongestion/src/congestion.rs:100-327 | over every run of the controller each packet of each space leaves flight through exactly one callback |
| `CongestionProofs.TimerFollowsLossTime` | qcongestion/src/congestion.rs:246-263 | over every run, whatever the flags do: with a loss time anywhere the timer is the earliest; a space with an ack-eliciting packet in flight has its send time, so the unwrap cannot fail |
| `CongestionProofs.TimerArmed` | qcongestion/src/congestion.rs:246-327 | with fixed path flags and no amplification limit the timer is armed whenever an ack-eliciting packet is in flight in an eligible space |
| `CongestionProofs.TimerNoneIff` | qcongestion/src/congestion.rs:246-263 | exactly when setting the timer leaves it unset |
| `CongestionProofs.LossTimeIsEarliest` | qcongestion/src/congestion.rs:337-344 | the selected loss time is the minimum, the first space on a tie |
| `CongestionProofs.PtoIsEarliest` | qcongestion/src/congestion.rs:373-407 | the probe time is the minimum over the eligible spaces, the first on a tie, of last ack-eliciting send plus round trip time plus variance backed off, plus for the application the acknowledgement delay backed off; absent exactly when no space is eligible |
| `CongestionProofs.AntiDeadlockProbe` | qcongestion/src/congestion.rs:376-385 | with nothing to probe for, the probe time is counted from now, for the Handshake space exactly with its keys |
| `CongestionProofs.TimeoutAdvances` | qcongestion/src/congestion.rs:293-305 | a loss timeout leaves its space without a deadline in the past |
| `CongestionProofs.TimeoutProbes` | qcongestion/src/congestion.rs:307-326 | a timeout without a loss time backs off once more and asks for one probe in the space with the earliest probe time, and for none exactly when only unconfirmed application data is in flight |
| `CongestionProofs.BackoffCount` | qcongestion/src/congestion.rs:217-326 | over every run the back-off equals the number of probe timeouts since the last new acknowledgement from a validated peer or discarded space |
| `CongestionProofs.DatagramArmsIff` | qcongestion/src/congestion.rs:126-146 | a datagram never probes; without a loss time it leaves the timer armed if and only if it was armed and the limit does not hold |
| `CongestionProofs.DatagramDoesNotArm` | qcongestion/src/congestion.rs:126-146 | runs, for a first packet in any eligible space, after which the limit is lifted, a datagram arrives, the packet needs a probe, and no timer is set |
| `CongestionProofs.WholePeriodDoublesIff` | qcongestion/src/rtt.rs:92-96 | the probe period equals the documented one exactly without back-off or with a zero round trip time |
| `CongestionProofs.WholePeriodFails` | qcongestion/src/rtt.rs:92-96 | 165 ms against the documented 198 ms after one timeout on the initial estimate |
| `CongestionProofs.TimeoutFindsLossIff` | qcongestion/src/congestion.rs:265-305 | a loss timeout reports a loss, as documented, if and only if a tracked packet of its space is overdue |
| `CongestionProofs.FirstTimeout` | qcongestion/src/congestion.rs:100-305 | send one packet and let its loss time pass: packet zero is reported lost without any acknowledgement, for every other number the loss timeout reports nothing |
| `CongestionProofs.OnAckRcvdKeeps` | qcongestion/src/congestion.rs:187-221 | an acknowledgement keeps histories, bytes, send times and timer, on the early return too |
| `CongestionProofs.DiscardEpochKeeps` | qcongestion/src/congestion.rs:462-468 | discarding a space keeps them |
| `CongestionLaws.LargestOverRun` | qcongestion/src/packets.rs:166-168 | over every run the largest acknowledged number of a space is the maximum over the frames delivered to it, absent exactly without any |
| `CongestionLaws.LossOverRun` | qcongestion/src/packets.rs:229-267 | over every run a packet is reported lost if and only if it is in flight, not above the largest number any delivered frame acknowledges, and sent more than the loss delay ago or followed by three tracked packets up to that number |
| `CongestionLaws.LastAskedOverRun` | qcongestion/src/congestion.rs:100-124 | over every run the recorded send time is that of the latest ack-eliciting packet sent in the space since it was last discarded |
| `CongestionLaws.PtoBacksOff` | qcongestion/src/rtt.rs:92-96 | the variance part of the probe period doubles with each timeout |
| `CongestionLaws.DataWaitsLonger` | qcongestion/src/congestion.rs:391-397 | the application's probe time exceeds that of an equal Handshake space by exactly the backed-off acknowledgement delay |
| `CongestionLaws.ProbeNotEarly` | qcongestion/src/congestion.rs:246-407 | over every run a tick that asks for a probe, with packets to probe for, comes no earlier than the latest ack-eliciting send plus the period doubled once per probe timeout since the back-off ended, for the application with the acknowledgement delay doubled as often |
| `CongestionLaws.TimerIsExact` | qcongestion/src/congestion.rs:246-263 | without a loss time the timer is set to the time of the space due first, or, with nothing to probe for and the address not validated, to the probe period from now; never at the amplification limit |
| `CongestionLaws.NeedOverRun` | qcongestion/src/congestion.rs:100-326 | over every run the probes asked for are exactly those owed: one more per probe timeout in the space due first, one less per ack-eliciting send |
| `CongestionLaws.SendNeverPostpones` | qcongestion/src/congestion.rs:100-124 | sending keeps every loss time; a packet that counts gives its space one, the loss delay from now, only if there was none |
| `CongestionLaws.AckCleans` | qcongestion/src/congestion.rs:187-221 | an acknowledgement of anything new leaves nothing overdue in its space |
| `CongestionLaws.TickFindsLossIff` | qcongestion/src/congestion.rs:293-305 | a tick reports losses if and only if the timer has run out, a loss time is set and a packet of its space is overdue |
| `CongestionLaws.DatagramFindsLossIff` | qcongestion/src/congestion.rs:136-146 | a datagram does nothing below the amplification limit, and at the limit reports losses if and only if the earliest loss time has passed and a packet of its space is overdue |
| `CongestionLaws.DiscardClears` | qcongestion/src/congestion.rs:462-468 | a discarded space keeps its largest acknowledged number and nothing else; the others stay, and the back-off ends |
| `CongestionLaws.SampleTakenIff` | qcongestion/src/congestion.rs:187-202 | a frame yields a sample if and only if its largest number is newly acknowledged together with a packet that asked for it |
| `CongestionLaws.EcnToldOnce` | qcongestion/src/congestion.rs:203-207 | with counts and anything new, the algorithm hears of the count once, after the acknowledgements, with the send time of the largest new packet |
| `Congestion.CongestionController.constructor` | qcongestion/src/congestion.rs:52-83 | starts in a state that satisfies the invariants |
| `Congestion.CongestionController.GetLossTimeAndEpoch` | qcongestion/src/congestion.rs:337-344 | computes the specified minimum |
| `Congestion.CongestionController.GetPtoTimeAndEpoch` | qcongestion/src/congestion.rs:373-407 | the loop over the spaces computes the specified minimum without a failing unwrap |
| `Congestion.CongestionController.SetLossDetectionTimer` | qcongestion/src/congestion.rs:246-263 | refines the specified timer |
| `Congestion.CongestionController.OnPacketSent` | qcongestion/src/congestion.rs:100-124 | refines the specified send, timer before queueing, and keeps all invariants |
| `Congestion.CongestionController.OnAckRcvd` | qcongestion/src/congestion.rs:187-221 | refines the specified reaction and keeps all invariants |
| `Congestion.CongestionController.OnLossDetectionTimeout` | qcongestion/src/congestion.rs:293-327 | refines the specified timeout and keeps all invariants |
| `Congestion.CongestionController.OnDatagramRcvd` | qcongestion/src/congestion.rs:136-146 | refines the specified reaction and keeps all invariants |
| `Congestion.CongestionController.DiscardEpoch` | qcongestion/src/congestion.rs:462-468 | refines the specified discard and keeps all invariants |
| `Congestion.CongestionController.Handle` | qcongestion/src/congestion.rs:500-605 | each call on the shared handle is one step of the specified run |
| `FlowSpec.HonestSenderIsSafe` | qbase/src/flow.rs:38-129 | from any known limit up to the initial one, learnt later, over a network that loses, repeats and reorders MAX_DATA: committed plus lent bytes stay within the sender's limit, that within the receiver's; no flow control error; the window stays between step and initial limit; DATA_BLOCKED limits strictly increase |
| `FlowSpec.NeverOverflowsIff` | qbase/src/flow.rs:221-333 | no run causes a flow control error if and only if the limit the sender starts from is not above the receiver's initial one |
| `FlowSpec.RefundPreserves` | qbase/src/flow.rs:180-189 | a refund keeps the credit balance and cannot underflow |
| `FlowSpec.LendPreserves` | qbase/src/flow.rs:106-129 | a request gets the smaller of itself and what is neither committed nor lent; the credit balance is kept; an exhausted limit is reported, and only once |
| `FlowSpec.FailedIsFrozen` | qbase/src/flow.rs:38-189 | once the connection has failed the sender takes no limit, lends nothing, reports nothing and refunds nothing |
| `FlowSpec.QuietProgress` | qbase/src/flow.rs:106-129 | with everything delivered and no credit out, a request gets at least the smaller of itself and the step |
| `FlowSpec.CanSettle` | qbase/src/flow.rs:180-333 | from every state of an open connection that situation can be reached without sending another byte |
| `FlowSpec.KeepsMovingIff` | qbase/src/flow.rs:202-241 | requests never starve for good if and only if the initial limit is at least two |
| `FlowSpec.SmallWindowIsStuck` | qbase/src/flow.rs:202-241 | below two bytes the limit never moves |
| `Flow.SendController.IncreaseLimit` | qbase/src/flow.rs:38-44 | refines the specified limit update |
| `Flow.SendController.Lend` | qbase/src/flow.rs:106-129 | refines lending, with a fresh credit or the connection's error |
| `Flow.SendController.OnError` | qbase/src/flow.rs:133-139 | closes the controller |
| `Flow.Credit.PostSent` | qbase/src/flow.rs:175-177 | moves bytes from the credit to the committed ones |
| `Flow.Credit.Drop` | qbase/src/flow.rs:180-189 | refunds the unused part, unless the connection has failed |
| `Flow.RecvController.constructor` | qbase/src/flow.rs:202-209 | the step is half the initial limit |
| `Flow.RecvController.OnNewRcvd` | qbase/src/flow.rs:221-241 | refines the specified window update and reports an error exactly on overflow |
| `ConnState.CodesAgree` | qconnection/src/state.rs:164-193 | encoding and decoding are inverse; `ConnLaws.CodesFollowLifeCycle` fixes the order |
| `ConnState.NextKeepsCode` | qconnection/src/state.rs:102-142 | each step stores nothing or one strictly larger code |
| `ConnState.StepShrinks` | qconnection/src/state.rs:105-140 | every step of a call, a failed exchange included, brings it closer to its end |
| `ConnState.CallsEnd` | qconnection/src/state.rs:102-142 | under every interleaving a call takes at most fifteen steps of its own |
| `ConnState.AtMostOnce` | qconnection/src/events.rs:57-86 | under every interleaving: at most one Handshaked, at most one of ApplicationClose and Failed, at most one Closed forwarded; after all calls exactly when the state was entered |
| `ConnState.ReleasedBeforeForwarded` | qconnection/src/state.rs:120-132 | under every interleaving waiters are released before the event is forwarded, and handshake waiters turned away before those who wait for the end are let go |
| `ConnLaws.CodesFollowLifeCycle` | qconnection/src/state.rs:182-193 | one code is smaller than another if and only if its state comes earlier in the life cycle |
| `ConnLaws.StatesInOrder` | qconnection/src/state.rs:102-142 | under every interleaving the states entered are in the order of the life cycle, and the last one is in force |
| `ConnLaws.UndisturbedEmit` | qconnection/src/events.rs:57-86 | from every reachable state, with no other thread moving: Handshaked leads to HandshakeConfirmed, Failed and ApplicationClose to Closing, Closed to Draining, each forwarded if and only if the state is not reached yet; Terminated leads to Closed and is always forwarded, as are path events |
| `ConnLaws.PeerCloseIsNews` | qconnection/src/events.rs:72-77 | the peer's close after only a local close is forwarded and ends in Draining |
| `ConnLaws.LateIsFiltered` | qconnection/src/events.rs:57-86 | under every interleaving no call started once the connection is in its target state or beyond ever forwards its event: no handshake, failure or local close after the peer's close |
| `Lifecycle.ConnectionState.TryEntryAttempted` | qconnection/src/state.rs:53-58 | succeeds only from the initial state |
| `Lifecycle.ConnectionState.Update` | qconnection/src/state.rs:102-142 | against arbitrary interference the loop ends; it wins only from a smaller code and returns the state it replaced, and gives up only at or above its target; each semaphore changes exactly as the state entered asks |
| `Lifecycle.EventBroker.Emit` | qconnection/src/events.rs:57-86 | forwards an event unless it drives to a state already reached; Terminated and path events always; each semaphore changes exactly as a forwarded event asks |
| `CryptoFrames.EstimateIsOptimal` | qbase/src/frame/crypto.rs:67-91 | the estimate is the largest n of at least one whose header and data fit, absent exactly when there is none |
| `CryptoFrames.RoundTripIff` | qbase/src/frame/crypto.rs:103-126 | a written frame reads back if and only if twice its offset is in range, and is refused otherwise |
| `CryptoFrames.MisjudgedIff` | qbase/src/frame/crypto.rs:103-113 | exactly which frames are accepted or refused against the documented bound |
| `CryptoFrames.BothMistakesHappen` | qbase/src/frame/crypto.rs:105-111 | a frame within the bound that is refused and one beyond it that is accepted |
| `CryptoFrames.ReadsWhatIsThere` | qbase/src/frame/io.rs:66-76 | what is read from any bytes is what the bytes spell |
| `CryptoFrames.PutDataFrame` | qbase/src/frame/crypto.rs:120-126 | appends type byte 0x06, offset, length and data, as many bytes as `encoding_size` and the data |
| `Datagrams.HeadSize` | qbase/src/frame/datagram.rs:57-63 | the header is as long as `encoding_size` says |
| `Datagrams.WireFormat` | qbase/src/frame/datagram.rs:93-99 | type byte 0x31 and the length, or 0x30 alone |
| `Datagrams.PackedSize` | qunreliable/src/writer.rs:124-159 | a length is written if and only if it fits; otherwise the payload fills the packet to its end |
| `Datagrams.PackedReadsBack` | qunreliable/src/writer.rs:124-159 | what is loaded into a packet, followed by whatever still fits, reads back as the payload and that rest; the form without length leaves no room |
| `Datagrams.PacketReadsBack` | qunreliable/src/writer.rs:124-159 | a packet filled from the queue reads back as exactly the payloads loaded, in order |
| `Datagrams.RejectedIff` | qunreliable/src/reader.rs:70-93 | a payload accepted for sending is refused on arrival if and only if the length is written and no longer fits the limit |
| `Datagrams.AcceptedPayloadCanBeRejected` | qunreliable/src/writer.rs:208-229 | a payload for which that happens |
| `Datagrams.RoomyLimitIsSafe` | qunreliable/src/writer.rs:208-229 | a limit with room for the length is safe |
| `Datagrams.ReceivedAnywayIff` | qunreliable/src/writer.rs:208-229 | an accepted payload is received from every packet it is loaded into if and only if the limit has room for its length, or no packet has |
| `Datagrams.DatagramOutgoing.SendBytes` | qunreliable/src/writer.rs:208-229 | queues at the back, or refuses without a change |
| `Datagrams.DatagramOutgoing.TryLoadDataInto` | qunreliable/src/writer.rs:124-159 | removes only the head and writes its packing; refuses for room only when not even one header byte fits, without a change |
| `Datagrams.DatagramOutgoing.OnConnError` | qunreliable/src/writer.rs:165-170 | closes the queue and drops what is in it |
| `Datagrams.PutDataFrame` | qbase/src/frame/datagram.rs:93-99 | appends exactly header and data |
| `Datagrams.DatagramIncoming.RecvDatagram` | qunreliable/src/reader.rs:70-93 | delivers in order, or refuses without a change |

## Left out

- Sockets, tasks, wakers, logging, TLS, keys and packet protection.
- Packet assembly and pacing; RTT smoothing, whose result is an input here.
- Streams, journals, send and receive buffers.
- Tracking of received packets for acknowledgement (`RcvdRecords`): flags and a maximum only.
- The server's extra router entry for the client's original destination CID.
- The order in which events of different threads reach the application: nothing in the source fixes it.
- The `StatelessReset` event, which the source does not implement.
- Panics when a limit exceeds 2^62 - 1 or a probe count exceeds 31.
- An MTU that changes during the connection.
- CryptoFrames.EstimateIsOptimal: for capacities on which the source does not give up, that is up to 2^30 + 1 bytes beyond the least header.
- CongestionProofs.TimerArmed: needs path flags that stay as they are, because a change of flags alone does not set the timer.
- CongestionLaws.ProbeNotEarly: for one acknowledgement delay and a confirmation that is not taken back, as the source has them.
- CidPair.HonestPair: the CID at index zero is exempt from being as issued, since it is learnt from a packet header.
