# The AIC8800 host data path in Dafny

The AIC8800 driver moves frames between the Linux network stack and a USB or SDIO Wi-Fi chip. Its
data path is a handful of small state machines, queues and codecs. This project models them and
proves what they promise, with 32-bit wrap-around, updates in place and interleaving written out.
Each section that the driver runs under a lock is one step.

| files | what they model |
|---|---|
| `Words.dfy`, `Sequences.dfy`, `Counting.dfy` | fixed-width words and their operators on integers; operations on sequences; occurrences in a list |
| `Md5Bits.dfy`, `Md5Spec.dfy`, `Md5Block.dfy`, `Md5.dfy` | MD5 (RFC 1321): the words and macros, the one-shot definition, the block function written out, the buffered context |
| `MachineWords.dfy`, `Md5Vector.dfy` | the same words as bit vectors, with which the digest of "abc" is computed from the definition |
| `TxRing.dfy` | the IPC transmit descriptor ring, with its confirmation handler |
| `TcpAckSpec.dfy`, `TcpAckInvariant.dfy`, `TcpAckTenancy.dfy`, `TcpAckLaws.dfy`, `TcpAck.dfy` | the TCP ACK coalescer: its steps, its table over any run, one slot's tenancy, when an ACK leaves, the code |
| `RxHeader.dfy`, `Reassembly.dfy`, `ReassemblyBuffer.dfy`, `TxPool.dfy`, `TxPoolLaws.dfy` | the USB bus layer: the header of received records, reassembly of long packets and the buffer it fills, the transmit buffer pool, and its flow control and order over runs |
| `FrameQueue.dfy`, `Deaggregate.dfy` | the priority frame queue, and the loop that splits a received aggregate |
| `SdioAggr.dfy`, `SdioLaws.dfy` | SDIO aggregation and firmware credits; when a block goes out and how a queue is emptied |
| `NatSpec.dfy`, `NatHistory.dfy`, `NatTable.dfy`, `NatBridge.dfy` | the NAT2.5 database: a map with ageing, what it holds told from the operations so far, the linked chains, the 16-bucket table with its shortcut |
| `Vlan.dfy`, `Pppoe.dfy` | the NAT2.5 bridge's edits on frames: 802.1Q tags, PPPoE relay tags |

Where the driver does not keep a promise on all inputs, the model keeps the driver's behaviour, a
lemma says exactly when the promise holds, and another gives an input for which it does not:

| promise | holds if and only if | failing input |
|---|---|---|
| MD5Update consumes its input | no sum `i + 64` of the loop test wraps (`Md5.LastTestIff`) | a first update of 2^32 - 1 bytes (`Md5.LargestUpdateWraps`) |
| reassembly gives back the packet that was cut | ALIGN announces the number of pieces (`Reassembly.RoundTripIff`) | 12289 bytes at the 12288-byte setting (`Reassembly.AmsduSizeLosesPacket`) |
| reassembly stays within its buffer | every oversize packet is announced with at least two pieces (`ReassemblyBuffer.BufferFitsIff`) | the same (`ReassemblyBuffer.AmsduSizeOverruns`) |
| the de-aggregation loop ends | every record fits into what is left (`Deaggregate.EndsIffAllFit`) | four bytes (`Deaggregate.ShortDataNeverEnds`) |
| no wake-up of the transmit pool is lost | no failed buffer is requeued over the mark with nobody about to check (`TxPool.WakePendingIff`) | 200 failing submissions (`TxPool.FailedSubmissionsLoseWake`) |
| firmware credits add up | the frames an interrupted burst left are at most the credits read (`SdioAggr.StaysBalancedIff`) | two left and one credit (`SdioAggr.LeftoverOverdraws`) |
| a coalescer slot lets out ACKs of its own flow only | it held nothing when the flow got it (`TcpAckTenancy.OwnOnlyIffNothingHeld`) | a run from the initial table (`TcpAckTenancy.InheritedMessage`) |
| NAT2.5 use counts are at least 1 | no lookup takes one beyond 31 bits (`NatSpec.CountsPositiveIff`) | a count of 2^31 - 1 (`NatSpec.LastCountOverflows`) |
| the client gets its PPPoE relay tag back | it sent none or a non-empty one (`Pppoe.RelayRoundTripIff`) | an empty one (`Pppoe.EmptyTagIsLost`) |
| the relay tag is inserted | the host is big-endian, and value and frame fit (`Pppoe.Skb.InsertRelay`) | every frame on a little-endian host (`Pppoe.TagAdded`) |

The confirmation handler of the transmit ring is given callbacks that the driver does not have: one
that pushes ids and then refuses its own leaves the ring whole if and only if the pushes did not
take the slot of the refused id (`TxRing.Ring.TxCfmStep`).

## Model

| member | source | states |
|---|---|---|
| `Md5Bits.AuxiliaryFunctions` | drivers/aic8800/aic8800_fdrv/md5.h:12-15 | for all words, the macros F and G select bit by bit (by x, by z), H is the parity of the three bits, and I is y differing from x or not z |
| `Md5Bits.RotateSwapsParts` | drivers/aic8800/aic8800_fdrv/md5.h:16 | ROTATE_LEFT makes the upper n bits and the lower 32 - n bits change places |
| `Md5Spec.WordsOfBytes` | drivers/aic8800/aic8800_fdrv/md5.c:53-78 | decoding encoded words gives the words back |
| `Md5Spec.BytesOfWords` | drivers/aic8800/aic8800_fdrv/md5.c:53-78 | encoding decoded bytes gives the bytes back |
| `Md5Spec.FoldAppend` | drivers/aic8800/aic8800_fdrv/md5.c:31-33 | folding blocks over a concatenation is folding over its two parts in turn |
| `Md5Block.TurnInSteps` | drivers/aic8800/aic8800_fdrv/md5.h:17-40 | the three assignments that the four macros share, with every sum wrapped where it is formed, give b plus the rotated sum of a, the mixed word, the message word and the constant |
| `Md5Block.Encode` | drivers/aic8800/aic8800_fdrv/md5.c:53-65 | the bytes written are the words, each with its least significant byte first |
| `Md5Block.Decode` | drivers/aic8800/aic8800_fdrv/md5.c:66-78 | the words written are the numbers that the groups of four bytes stand for, although they are joined by OR |
| `Md5Block.FF` | drivers/aic8800/aic8800_fdrv/md5.h:17-22 | with the word, shift and constant of step i of round 1, the assignments of the macro compute the register that step i of RFC 1321 section 3.4 computes |
| `Md5Block.GG` | drivers/aic8800/aic8800_fdrv/md5.h:23-28 | the same for round 2 |
| `Md5Block.HH` | drivers/aic8800/aic8800_fdrv/md5.h:29-34 | the same for round 3 |
| `Md5Block.II` | drivers/aic8800/aic8800_fdrv/md5.h:35-40 | the same for round 4 |
| `Md5Block.Steps1To8` | drivers/aic8800/aic8800_fdrv/md5.c:87-94 | the eight lines written out are steps 1 to 8 of the schedule, whose words, shifts and register roles are given by formulas |
| `Md5Block.Steps9To16` | drivers/aic8800/aic8800_fdrv/md5.c:95-102 | the same for steps 9 to 16 |
| `Md5Block.Steps17To24` | drivers/aic8800/aic8800_fdrv/md5.c:105-112 | the same for steps 17 to 24 |
| `Md5Block.Steps25To32` | drivers/aic8800/aic8800_fdrv/md5.c:113-120 | the same for steps 25 to 32 |
| `Md5Block.Steps33To40` | drivers/aic8800/aic8800_fdrv/md5.c:123-130 | the same for steps 33 to 40 |
| `Md5Block.Steps41To48` | drivers/aic8800/aic8800_fdrv/md5.c:131-138 | the same for steps 41 to 48 |
| `Md5Block.Steps49To56` | drivers/aic8800/aic8800_fdrv/md5.c:141-148 | the same for steps 49 to 56 |
| `Md5Block.Steps57To64` | drivers/aic8800/aic8800_fdrv/md5.c:149-156 | the same for steps 57 to 64 |
| `Md5Block.Transform` | drivers/aic8800/aic8800_fdrv/md5.c:79-161 | the four state words become the block function of RFC 1321 section 3.4 of the old ones and the block |
| `Md5.CountAdd` | drivers/aic8800/aic8800_fdrv/md5.c:23-26 | two words that count the bits of n bytes modulo 2^64 count those of n + inputlen bytes after the shifted addition, the carry and the high part |
| `Md5.CountIndex` | drivers/aic8800/aic8800_fdrv/md5.c:21 | the masked, shifted low word is the number of bytes modulo 64, also after any number of wraps |
| `Md5.Context.constructor` | drivers/aic8800/aic8800_fdrv/md5.c:9-17 | a valid context that has consumed nothing |
| `Md5.Context.Update` | drivers/aic8800/aic8800_fdrv/md5.c:18-41 | the context has consumed the old bytes followed by the input, where valid means: the counter is 8 times the bytes modulo 2^64, the buffer starts with the bytes of the incomplete block, the state is the fold over the whole blocks |
| `Md5.Context.Blocks` | drivers/aic8800/aic8800_fdrv/md5.c:32-33 | the loop absorbs exactly the whole blocks that are left and stops less than 64 bytes before the end |
| `Md5.LastTestIff` | drivers/aic8800/aic8800_fdrv/md5.c:32 | at the last block boundary the loop test comes out true, with no block left, if and only if the 32-bit sum wraps |
| `Md5.LargestUpdateWraps` | drivers/aic8800/aic8800_fdrv/md5.c:32 | a first update of 2^32 - 1 bytes meets that test with no block left |
| `Md5.Context.Pad` | drivers/aic8800/aic8800_fdrv/md5.c:46-50 | the padding and the counter complete the message to the padded message of RFC 1321 sections 3.1 and 3.2 |
| `Md5.Context.Final` | drivers/aic8800/aic8800_fdrv/md5.c:42-52 | the 16 bytes are the one-shot MD5 of everything consumed |
| `Md5.HashPieces` | drivers/aic8800/aic8800_fdrv/md5.c:9-52 | however a message is cut into updates on which no loop sum wraps, the digest is that of the whole message |
| `Md5.ShortPieces` | drivers/aic8800/aic8800_fdrv/md5.c:32 | no loop sum wraps for pieces of fewer than 2^32 - 64 bytes, however many |
| `Md5Vector.ValTurn` | drivers/aic8800/aic8800_fdrv/md5.h:17-40 | a step of the schedule on 32-bit machine words, with the operators of the machine, computes the number that the step of the definition computes |
| `Md5Vector.DigestOfAbc` | drivers/aic8800/aic8800_fdrv/md5.c:9-161 | the digest of "abc" is 900150983cd24fb0d6963f7d28e17f72, as section A.5 of RFC 1321 demands: initial state, padding, words, order, constants and shifts of the definition are those of MD5 |
| `TxRing.MaskedIndex` | drivers/aic8800/aic8800_fdrv/ipc_host.c:594-597 | masking a 32-bit index with cnt - 1 selects the slot of the unwrapped count modulo cnt, whatever the number of wraps |
| `TxRing.FullTest` | drivers/aic8800/aic8800_fdrv/ipc_host.c:565-588 | the wrapped addition is equal to the free index exactly when the ring is full, the indices are equal exactly when it is empty, and their wrapped difference is the length |
| `TxRing.Ring.RefinesFifo` | drivers/aic8800/aic8800_fdrv/ipc_host.c:226-315 | in every valid state the queue has (free - used) mod 2^32 entries, at most cnt, and the table, read from the slot of the used index on, is the queue followed by null |
| `TxRing.Ring.constructor` | drivers/aic8800/aic8800_fdrv/ipc_shared.h:29-35 | an empty ring over a power of two of null slots is valid |
| `TxRing.Ring.TxdescGet` | drivers/aic8800/aic8800_fdrv/ipc_host.c:565-588 | NULL exactly when the FIFO is full; otherwise the slot of the next push, which is null |
| `TxRing.Ring.TxdescPush` | drivers/aic8800/aic8800_fdrv/ipc_host.c:591-611 | enqueues the id, also across the wrap of the index, and keeps every slot outside the window null |
| `TxRing.Ring.TxFlush` | drivers/aic8800/aic8800_fdrv/ipc_host.c:299-315 | dequeues the oldest id; NULL exactly when the FIFO is empty |
| `TxRing.ConfirmInOrder` | drivers/aic8800/aic8800_fdrv/ipc_host.c:226-266 | for every list of answers, with pushes or without: ids are handed over in push order, exactly the accepted prefix is removed, accepted and remaining ids together are the ids queued before and during the loop, a refused id stays at the head |
| `TxRing.ConfirmAsAnswered` | drivers/aic8800/aic8800_fdrv/ipc_host.c:252-262 | one id is handed over for each answer given; all were accepted but one that ended the loop by its refusal; the loop ends early only with a refusal or an empty queue |
| `TxRing.AcceptingCallbackDrains` | drivers/aic8800/aic8800_fdrv/ipc_host.c:226-266 | a callback that accepts everything receives the whole FIFO in order and leaves it empty |
| `TxRing.Ring.TxCfmStep` | drivers/aic8800/aic8800_fdrv/ipc_host.c:233-262 | one pass removes the head when the callback accepts it and keeps it when refused, with the ids that the callback pushes meanwhile behind the rest; a refusal without pushes or an empty ring leaves table and indices as before; after a refusal the ring is valid unless the pushes took the slot of the refused id |
| `TxRing.Ring.TxCfmHandler` | drivers/aic8800/aic8800_fdrv/ipc_host.c:226-266 | ids handed over, ids accepted, queue and outcome are those of the confirmation loop over the FIFO, which is in order and as answered; the ring is valid unless the outcome is an overrun |
| `TxRing.RefusalAfterPushes` | drivers/aic8800/aic8800_fdrv/ipc_host.c:252-260 | writing a refused id back gives the table of the queue with the ids pushed meanwhile if and only if these did not take its slot; otherwise only the last of them is missing from the table |
| `TxRing.TxFramesPending` | drivers/aic8800/aic8800_fdrv/ipc_host.c:271-294 | true exactly when some queue of some user is not empty |
| `TcpAckInvariant.AllocFindsIdle` | drivers/aic8800/aic8800_fdrv/aicwf_tcp_ack.c:313-348 | allocation fails exactly when all 32 slots are busy, and otherwise yields an idle slot |
| `TcpAckInvariant.StepInv` | drivers/aic8800/aic8800_fdrv/aicwf_tcp_ack.c:260-348 | every step keeps: max_num is the number of busy slots, a non-negative free_index names an idle slot, no two busy slots share a flow, a stopped table holds nothing |
| `TcpAckInvariant.RunInv` | drivers/aic8800/aic8800_fdrv/aicwf_tcp_ack.c:30-645 | so it holds after every run of sends, receptions, timer firings, send reports and deinit |
| `TcpAckInvariant.RunConserves` | drivers/aic8800/aic8800_fdrv/aicwf_tcp_ack.c:30-61 | over any run, every occurrence of a message held before or taken over has been freed, transmitted by the timer, or is held |
| `TcpAckInvariant.ConsumedOnceFate` | drivers/aic8800/aic8800_fdrv/aicwf_tcp_ack.c:96-121 | a message taken over once is held once, or was freed once, or was sent once, never two of these; and once the coalescer is stopped it is not held |
| `TcpAckTenancy.RunIsSlotRun` | drivers/aic8800/aic8800_fdrv/aicwf_tcp_ack.c:447-645 | while a slot stays with its flow, a run of the table does to it what the events it sees do to one slot alone, and what the run transmits, lets through and frees on its account is what those events let out and free |
| `TcpAckTenancy.BeforeIsGap` | drivers/aic8800/aic8800_fdrv/aicwf_tcp_ack.h:19 | U32_BEFORE holds exactly when the signed step from the first number to the second is not negative, and that step leads from one to the other |
| `TcpAckTenancy.TenancyInOrder` | drivers/aic8800/aic8800_fdrv/aicwf_tcp_ack.c:447-527 | over any events of a tenancy ACKs leave in non-decreasing unwrapped order, a freed ACK is not newer than the recorded one, and the recorded one is held or has left (section 3.4 of RFC 9293) |
| `TcpAckTenancy.TenancyUnwraps` | drivers/aic8800/aic8800_fdrv/aicwf_tcp_ack.c:447-527 | these unwrapped numbers stand one for one, modulo 2^32, for the messages let out and freed |
| `TcpAckTenancy.FlowInOrder` | drivers/aic8800/aic8800_fdrv/aicwf_tcp_ack.c:555-623 | from the step that gives an idle slot with nothing held to a flow, over any run of the whole table: the messages that its steps transmit and let through on the slot's account, the first ACK included, leave in non-decreasing unwrapped order, those that they free are not newer than the newest, and the newest is held or has left |
| `TcpAckTenancy.OwnOnlyIffNothingHeld` | drivers/aic8800/aic8800_fdrv/aicwf_tcp_ack.c:601-618 | a tenancy lets out its own ACKs only, whatever happens, if and only if nothing is held at its start |
| `TcpAckTenancy.InheritedMessage` | drivers/aic8800/aic8800_fdrv/aicwf_tcp_ack.c:601-618 | a run from the initial table after which the timer transmits a message of one flow for a slot that serves another |
| `TcpAckTenancy.WithheldInARow` | drivers/aic8800/aic8800_fdrv/aicwf_tcp_ack.c:471-498 | with no send in flight, newer ACKs in a row are withheld only while the drop count stays below ten |
| `TcpAckLaws.LeavesAtOnceIff` | drivers/aic8800/aic8800_fdrv/aicwf_tcp_ack.c:463-498 | for any slot and any events after which nothing has left: an ACK that is not older than the newest leaves at once if and only if the last push marker has a number strictly before it, or no send is in flight and it is at least the tenth counted; then it is in flight and the count is zero; otherwise it is held; the ACK held before is freed |
| `TcpAckLaws.WhileNothingLeaves` | drivers/aic8800/aic8800_fdrv/aicwf_tcp_ack.c:471-477 | while nothing leaves, the marker that stands is the last one, and the count has grown by the ACKs that were not older |
| `TcpAckLaws.MarkerAnswered` | drivers/aic8800/aic8800_fdrv/aicwf_tcp_ack.c:471-486 | after a push marker and any events without an ACK behind it, the first ACK behind it leaves at once, whatever is in flight, and uses the marker up |
| `TcpAckLaws.OlderIsFreed` | drivers/aic8800/aic8800_fdrv/aicwf_tcp_ack.c:501-506 | an older ACK is freed and changes nothing but the time of the slot |
| `TcpAckLaws.TimerSendsIff` | drivers/aic8800/aic8800_fdrv/aicwf_tcp_ack.c:48-60 | the timer lets the held ACK out if and only if no send is in flight, and else changes nothing |
| `TcpAckLaws.InFlightUntilReported` | drivers/aic8800/aic8800_fdrv/aicwf_tcp_ack.c:625-645 | a message that left is in flight until its report, as long as no other leaves |
| `TcpAckLaws.LosesSlotIff` | drivers/aic8800/aic8800_fdrv/aicwf_tcp_ack.c:288-310 | a flow loses its slot if and only if the last scan and its own last ACK are both more than the timeout ago |
| `TcpAckLaws.FirstTwoLeave` | drivers/aic8800/aic8800_fdrv/aicwf_tcp_ack.c:601-618 | a new flow has its first ACK let through, and its second, when that is not older and nothing is in flight |
| `TcpAckLaws.ReceiveMarks` | drivers/aic8800/aic8800_fdrv/aicwf_tcp_ack.c:529-552 | a received segment with the push flag marks the slot of its flow and changes nothing else |
| `TcpAckLaws.PushedAckPasses` | drivers/aic8800/aic8800_fdrv/aicwf_tcp_ack.c:529-623 | the next ACK of that flow behind the segment passes the filter, whatever is in flight |
| `TcpAckLaws.SentEndsFlight` | drivers/aic8800/aic8800_fdrv/aicwf_tcp_ack.c:625-645 | the report ends the flight of its message in whichever busy slot it is |
| `TcpAckLaws.OthersPass` | drivers/aic8800/aic8800_fdrv/aicwf_tcp_ack.c:555-623 | what is not an ACK, has no slot, or comes while the coalescer is stopped passes |
| `TcpAck.TcpAckManage.constructor` | drivers/aic8800/aic8800_fdrv/aicwf_tcp_ack.c:63-94 | the initial table, which satisfies the invariant |
| `TcpAck.TcpAckManage.TcpAckMatch` | drivers/aic8800/aic8800_fdrv/aicwf_tcp_ack.c:260-285 | the scan finds the first busy slot of the flow, or none |
| `TcpAck.TcpAckManage.TcpAckUpdate` | drivers/aic8800/aic8800_fdrv/aicwf_tcp_ack.c:288-310 | the downward scan expires exactly the overdue slots and accounts for them |
| `TcpAck.TcpAckManage.TcpAckAllocIndex` | drivers/aic8800/aic8800_fdrv/aicwf_tcp_ack.c:313-348 | the slot and the bookkeeping of the specification's allocation |
| `TcpAck.TcpAckManage.TcpAckHandleNew` | drivers/aic8800/aic8800_fdrv/aicwf_tcp_ack.c:447-527 | slot, result and freed messages of the specification's handler; the message is let through if and only if it is not older and either an unanswered push marker stands before it or nothing is in flight and it is the tenth counted |
| `TcpAck.TcpAckManage.FilterSendTcpAck` | drivers/aic8800/aic8800_fdrv/aicwf_tcp_ack.c:555-623 | one send step of the specification, which keeps the invariant and for which `TcpAckLaws.LeavesAtOnceIff`, `PushedAckPasses` and `OthersPass` say what is let through |
| `TcpAck.TcpAckManage.FilterRxTcpAck` | drivers/aic8800/aic8800_fdrv/aicwf_tcp_ack.c:529-552 | one receive step of the specification |
| `TcpAck.TcpAckManage.TcpAckTimeout` | drivers/aic8800/aic8800_fdrv/aicwf_tcp_ack.c:30-61 | one timer step of the specification |
| `TcpAck.TcpAckManage.MoveTcpAckMsg` | drivers/aic8800/aic8800_fdrv/aicwf_tcp_ack.c:625-645 | one send-report step of the specification |
| `TcpAck.TcpAckManage.TcpAckDeinit` | drivers/aic8800/aic8800_fdrv/aicwf_tcp_ack.c:96-121 | the stop step of the specification; every held message is freed and none is held afterwards |
| `Reassembly.StepSafe` | drivers/aic8800/aic8800_fdrv/aicwf_usb.c:397-519 | any piece, well formed or not, with or without memory, keeps: current length is 2048 times the pieces seen and the buffered length, at least one piece seen and fewer than announced; and every frame handed on is a packet of the formats |
| `Reassembly.WellFormedIff` | drivers/aic8800/aic8800_fdrv/aicwf_usb.c:449-510 | the length read from a header is that of the formats, stated in plain numbers: n + 60 for data, 4 + n rounded up to a multiple of four for a command response, 12 for a confirmation that announces 8; no data on the message endpoint |
| `Reassembly.IdlePieceIff` | drivers/aic8800/aic8800_fdrv/aicwf_usb.c:449-519 | at any packet size, a piece that continues nothing is handed on if and only if it is a packet of the formats, and starts a reassembly if and only if it is a whole transfer, memory is there, and a longer data packet (bulk endpoint) or command response is announced; any other is dropped |
| `Reassembly.RunSafe` | drivers/aic8800/aic8800_fdrv/aicwf_usb.c:594-694 | the same over any sequence of pieces and allocation failures, on both endpoints |
| `Reassembly.RoundTripIff` | drivers/aic8800/aic8800_fdrv/aicwf_usb.c:397-519 | for any packet size, cutting an oversize packet and feeding the pieces to an idle reassembler hands on exactly the packet, once, and ends idle, if and only if ALIGN announces the number of pieces |
| `Reassembly.RoundTrip` | drivers/aic8800/aic8800_fdrv/aicwf_usb.c:397-519 | at 2048 bytes that is so for every packet of the formats, of any length, on each endpoint that takes it |
| `Reassembly.StreamRoundTrip` | drivers/aic8800/aic8800_fdrv/aicwf_usb.c:594-694 | any stream of cut packets comes out as the list of those packets |
| `Reassembly.AmsduSizeLosesPacket` | drivers/aic8800/aic8800_fdrv/aicwf_usb.c:2344 | at 12288 bytes a packet of 12289 bytes does not come out |
| `ReassemblyBuffer.BufferFitsIff` | drivers/aic8800/aic8800_fdrv/aicwf_usb.c:415-420 | for any packet size, no run of pieces copies beyond the buffer of a packet if and only if every oversize packet is announced with at least two pieces |
| `ReassemblyBuffer.PacketSizeFits` | drivers/aic8800/aic8800_fdrv/aicwf_usb.c:415-420 | at 2048 bytes no run of pieces does |
| `ReassemblyBuffer.AmsduSizeOverruns` | drivers/aic8800/aic8800_fdrv/aicwf_usb.c:2344 | at 12288 bytes a run does, for a data packet of 12289 bytes |
| `Reassembly.NothingInvented` | drivers/aic8800/aic8800_fdrv/aicwf_usb.c:397-519 | no more bytes are handed on than were buffered and received |
| `Reassembly.Reassembler.TotalLen` | drivers/aic8800/aic8800_fdrv/aicwf_usb.c:449-510 | the length of the format with this header, in plain numbers, or none for a header that is dropped |
| `Reassembly.Reassembler.PktCheck` | drivers/aic8800/aic8800_fdrv/aicwf_usb.c:449-519 | a piece that continues nothing is started, handed on or dropped as the state machine says |
| `Reassembly.Reassembler.RxComplete` | drivers/aic8800/aic8800_fdrv/aicwf_usb.c:397-519 | fields and frames handed on are those of one step of the state machine; when nothing was begun, exactly a packet of the formats is handed on |
| `TxPool.StepPlaces` | drivers/aic8800/aic8800_fdrv/aicwf_usb.c:75-104 | no step of any actor changes in how many places a buffer is |
| `TxPool.StepOutstanding` | drivers/aic8800/aic8800_fdrv/aicwf_usb.c:180-259 | a step changes the number of a station's outstanding data buffers by exactly what it adds to the station's pending count |
| `TxPool.StepStations` | drivers/aic8800/aic8800_fdrv/aicwf_usb.c:1634-1662 | a station's pending count is the number of its outstanding data buffers; on an access point flow control off implies less than 64 and on implies at least 16 |
| `TxPool.WakePendingIff` | drivers/aic8800/aic8800_fdrv/aicwf_usb.c:214-259 | a step keeps the promise that tbusy above the high water mark has a completion handler about to clear it, if and only if it is not the requeue of a failed buffer that crosses the mark with nobody about to check |
| `TxPoolLaws.TbusyChangesIff` | drivers/aic8800/aic8800_fdrv/aicwf_usb.c:251-258 | transmission is stopped by a caller's check that finds fewer than 50 free buffers, started again by a completion check that finds more than 150, and by nothing else |
| `TxPoolLaws.StopNeedsLow` | drivers/aic8800/aic8800_fdrv/aicwf_usb.c:1857-1865 | a run that stops transmission passes through a state with fewer than 50 free buffers |
| `TxPoolLaws.StartNeedsHigh` | drivers/aic8800/aic8800_fdrv/aicwf_usb.c:251-258 | a run that starts it again passes through a state with more than 150 |
| `TxPoolLaws.NoStopMissed` | drivers/aic8800/aic8800_fdrv/aicwf_usb.c:1857-1865 | over any run, while transmission goes on with fewer than 50 free buffers, a caller is on its way to the check |
| `TxPoolLaws.FlowChangesIff` | drivers/aic8800/aic8800_fdrv/aicwf_usb.c:180-209 | a station of an access point is stopped by the frame that brings its outstanding frames to 64, started by the one that leaves 15, and by nothing else; no other station is |
| `TxPoolLaws.StationStopNeeds64` | drivers/aic8800/aic8800_fdrv/aicwf_usb.c:1634-1662 | a run that stops a station passes through a state with 64 outstanding frames of it |
| `TxPoolLaws.StationStartNeeds15` | drivers/aic8800/aic8800_fdrv/aicwf_usb.c:180-209 | a run that starts it again passes through a state with 15 |
| `TxPoolLaws.PostedInOrder` | drivers/aic8800/aic8800_fdrv/aicwf_usb.c:75-104 | over any run the bus thread gets the buffers in the order in which they were posted |
| `TxPoolLaws.StationKept` | drivers/aic8800/aic8800_fdrv/aicwf_usb.c:1697-1868 | a buffer keeps the station of its frame over any run in which it is not free |
| `TxPoolLaws.CountedForItsStation` | drivers/aic8800/aic8800_fdrv/aicwf_usb.c:180-209 | whatever happens since its buffer was taken, a frame is counted against its own station and no other, and taken off it when it completes or its submission fails |
| `TxPool.RunInv` | drivers/aic8800/aic8800_fdrv/aicwf_usb.c:1697-1868 | over any interleaving of callers, bus thread and completions: every buffer is in exactly one place, counters are list lengths, station counts obey their marks, and without failed submissions no wake-up is lost |
| `TxPool.RunKeepsInv` | drivers/aic8800/aic8800_fdrv/aicwf_usb.c:1146-1197 | all but the wake-up also with failing submissions |
| `TxPool.InitInv` | drivers/aic8800/aic8800_fdrv/aicwf_usb.h:98-111 | the pool of 200 free buffers satisfies the invariant |
| `TxPool.FailedSubmissionsLoseWake` | drivers/aic8800/aic8800_fdrv/aicwf_usb.c:1146-1197 | a run in which every submission fails and that ends with all buffers free, nobody at work and transmission stopped |
| `FrameQueue.NextUnique` | drivers/aic8800/aic8800_fdrv/aicwf_txrxif.c:1226-1246 | the oldest entry of the highest occupied level is unique |
| `FrameQueue.VictimUnique` | drivers/aic8800/aic8800_fdrv/aicwf_txrxif.c:1196-1211 | the newest entry of the lowest occupied level is unique |
| `FrameQueue.EnqueueIff` | drivers/aic8800/aic8800_fdrv/aicwf_txrxif.c:1261-1291 | a frame is taken if and only if there is room or some frame is queued at a strictly lower level; then, without room, the newest frame of the lowest level is freed and the newcomer stands last at that level; all others keep their order |
| `FrameQueue.DequeueTakes` | drivers/aic8800/aic8800_fdrv/aicwf_txrxif.c:1226-1246 | the oldest frame of the highest level is delivered and all others keep their order |
| `FrameQueue.RunConserves` | drivers/aic8800/aic8800_fdrv/aicwf_txrxif.c:1166-1291 | over any run the queue stays within its capacity, and every frame accepted was delivered once, freed once, or is queued once |
| `FrameQueue.LevelsAddUp` | drivers/aic8800/aic8800_fdrv/aicwf_txrxif.c:1150-1164 | the frame count is the sum of the level lengths |
| `FrameQueue.LevelsHoldAll` | drivers/aic8800/aic8800_fdrv/aicwf_txrxif.c:1166-1181 | the levels together hold every queued frame as often as it was queued |
| `FrameQueue.FrameQueue.constructor` | drivers/aic8800/aic8800_fdrv/aicwf_txrxif.c:1183-1194 | an empty valid queue |
| `FrameQueue.FrameQueue.NothingAboveHiPrio` | drivers/aic8800/aic8800_fdrv/aicwf_txrxif.c:1226-1246 | in every valid state all levels above hi_prio are empty |
| `FrameQueue.FrameQueue.IsEmpty` | drivers/aic8800/aic8800_fdrv/aicwf_txrxif.c:1213-1224 | the sum up to hi_prio says empty exactly when nothing is queued |
| `FrameQueue.FrameQueue.Penq` | drivers/aic8800/aic8800_fdrv/aicwf_txrxif.c:1150-1164 | appends at the level and raises hi_prio, or changes nothing exactly when the level is full |
| `FrameQueue.FrameQueue.PeekTail` | drivers/aic8800/aic8800_fdrv/aicwf_txrxif.c:1196-1211 | level and frame of the newest entry of the lowest occupied level; none exactly when empty |
| `FrameQueue.FrameQueue.DequeueTail` | drivers/aic8800/aic8800_fdrv/aicwf_txrxif.c:1248-1259 | removes and returns the newest entry of the level, or changes nothing exactly when the level is empty |
| `FrameQueue.FrameQueue.FrameDequeue` | drivers/aic8800/aic8800_fdrv/aicwf_txrxif.c:1226-1246 | delivers the oldest frame of the highest occupied level, leaves the others in order, and gives NULL only when empty |
| `FrameQueue.FrameQueue.FrameEnq` | drivers/aic8800/aic8800_fdrv/aicwf_txrxif.c:1261-1291 | taken if and only if there is room or some frame is queued at a strictly lower level; appended below capacity; at capacity the newest frame of the lowest level is freed, if that is strictly lower, the newcomer stands last at that level and all others keep their order; rejected without any change |
| `FrameQueue.FrameQueue.FrameFlush` | drivers/aic8800/aic8800_fdrv/aicwf_txrxif.c:1166-1181 | empties every level and frees exactly the queued frames, each as often as it was queued |
| `Deaggregate.EndsIffAllFit` | drivers/aic8800/aic8800_fdrv/aicwf_txrxif.c:725-811 | for every buffer the loop ends if and only if each record that it pulls fits into what is left |
| `Deaggregate.ShortDataNeverEnds` | drivers/aic8800/aic8800_fdrv/aicwf_txrxif.c:725-811 | a data record cut short by the end of its buffer keeps it from ending |
| `Deaggregate.SplitRecords` | drivers/aic8800/aic8800_fdrv/aicwf_txrxif.c:725-811 | on any buffer, records, rest and whether it has ended after any number of turns of the loop |
| `Deaggregate.FitDelivers` | drivers/aic8800/aic8800_fdrv/aicwf_txrxif.c:725-811 | when every record fits, the loop has ended within one turn for each byte and one more, with the records of the recursive reading delivered and its rest left |
| `Deaggregate.StuckDelivers` | drivers/aic8800/aic8800_fdrv/aicwf_txrxif.c:725-811 | a record that does not fit is delivered again with every turn |
| `Deaggregate.SplitInvertsEncode` | drivers/aic8800/aic8800_fdrv/aicwf_txrxif.c:348-363 | for every list of data records (n + 60 bytes) and configuration records (n + 4, padded to a multiple of four), followed by anything that is not a record, exactly those records come out in order and what follows is left |
| `SdioAggr.WalkPack` | drivers/aic8800/aic8800_fdrv/aicwf_sdio.c:821-863 | walking the 12-bit length headers of packed frames visits exactly the frames with their padding, and goes on with what follows |
| `SdioAggr.TransferReadsBack` | drivers/aic8800/aic8800_fdrv/aicwf_sdio.c:483-503 | the length sent is the least multiple of 512 that covers the records, and whatever lies between the data and that length, the walk visits exactly the records |
| `SdioLaws.RecordBytes` | drivers/aic8800/aic8800_fdrv/aicwf_sdio.c:821-863 | the bytes of a record: twelve bits of the padded length, the type 1, zero, descriptor, payload, and zeros up to a multiple of four |
| `SdioLaws.PackConcat` | drivers/aic8800/aic8800_fdrv/aicwf_sdio.c:821-863 | an aggregate is its records one behind the other, in the order in which they were packed |
| `SdioAggr.SendInv` | drivers/aic8800/aic8800_fdrv/aicwf_sdio.c:757-819 | one call keeps the credit invariant, and a block sent carries exactly the frames added to the sent ones |
| `SdioLaws.SendsIff` | drivers/aic8800/aic8800_fdrv/aicwf_sdio.c:784-814 | in any state whose aggregate is its packed frames: a block goes out if and only if the aggregate has used up the credits, or a frame is taken and it was the last or a command waits; it carries all packed frames and the taken one, in order, for one credit each; otherwise nothing is sent or spent |
| `SdioLaws.ReadingIs` | drivers/aic8800/aic8800_fdrv/aicwf_sdio.c:773-782 | the first positive reading counts, or the last |
| `SdioLaws.DrainsInOrder` | drivers/aic8800/aic8800_fdrv/aicwf_sdio.c:679-684 | while the chip goes on granting credits, two calls for each queued frame and one more send all frames, those packed before and then the queue, in order, and leave none behind |
| `SdioAggr.BurstInv` | drivers/aic8800/aic8800_fdrv/aicwf_sdio.c:635-687 | throughout a burst frames packed are at most the credits, credits read are credits left plus frames sent, and the aggregate is the packed frames and 4-aligned |
| `SdioAggr.BeginInv` | drivers/aic8800/aic8800_fdrv/aicwf_sdio.c:887-894 | a burst that begins with an empty aggregate satisfies it |
| `SdioAggr.StaysBalancedIff` | drivers/aic8800/aic8800_fdrv/aicwf_sdio.c:757-819 | a burst that begins with frames left behind keeps the credits balanced on every input if and only if they are at most the credits read, or at most one when none was read |
| `SdioAggr.LeftoverOverdraws` | drivers/aic8800/aic8800_fdrv/aicwf_sdio.c:757-819 | two frames left behind and one credit end with a balance of minus two |
| `SdioAggr.TxPriv.Aggr` | drivers/aic8800/aic8800_fdrv/aicwf_sdio.c:821-863 | header, frame and padding are appended, with the padded length in the header |
| `SdioAggr.TxPriv.AggrSend` | drivers/aic8800/aic8800_fdrv/aicwf_sdio.c:865-885 | the aggregate with its end marker and rounded length goes out and the buffer is reset |
| `SdioAggr.TxPriv.AggrbufReset` | drivers/aic8800/aic8800_fdrv/aicwf_sdio.c:887-894 | an empty aggregate and a zero count |
| `SdioAggr.TxPriv.ReadCredits` | drivers/aic8800/aic8800_fdrv/aicwf_sdio.c:773-782 | the first positive of six readings, or the last |
| `SdioAggr.FlowCtrlFinds` | drivers/aic8800/aic8800_fdrv/aicwf_sdio.c:49-80 | a reading is positive exactly when the register shows credits before any failed read, within 51 reads, and then it is the first number shown |
| `SdioAggr.PollCredits` | drivers/aic8800/aic8800_fdrv/aicwf_sdio.c:49-80 | the polling loop gives that reading |
| `SdioAggr.TxPriv.SdioSend` | drivers/aic8800/aic8800_fdrv/aicwf_sdio.c:757-819 | state and block of one call of the specification, which keeps the credit invariant |
| `NatSpec.ExpiredIff` | drivers/aic8800/aic8800_fdrv/aic_br_ext.c:136-153 | within half the range of the clock an entry has expired exactly when its age is reached |
| `NatSpec.CountsPositiveIff` | drivers/aic8800/aic8800_fdrv/aic_br_ext.c:404-512 | a step keeps every use count at 1 or more if and only if it is not a lookup that takes a count beyond 31 bits |
| `NatSpec.LastCountOverflows` | drivers/aic8800/aic8800_fdrv/aic_br_ext.c:404-474 | the lookup of an entry with a count of 2^31 - 1 leaves it negative |
| `NatSpec.RunCountsPositive` | drivers/aic8800/aic8800_fdrv/aic_br_ext.c:404-512 | over any run in which no lookup overflows, every entry keeps a use count of at least 1 |
| `NatSpec.RemovedByItsLastUse` | drivers/aic8800/aic8800_fdrv/aic_br_ext.c:628-712 | an expired entry that is not refreshed is removed by exactly its use_count-th following expire pass and by no earlier one, whatever happens in between |
| `NatSpec.RemovedAfterRun` | drivers/aic8800/aic8800_fdrv/aic_br_ext.c:628-712 | so it is, with a count of at least 1, for every entry of a table filled by any such run from empty |
| `NatSpec.FreshSurvives` | drivers/aic8800/aic8800_fdrv/aic_br_ext.c:628-712 | an entry that has not expired at any pass survives them all |
| `NatHistory.KnownIff` | drivers/aic8800/aic8800_fdrv/aic_br_ext.c:404-712 | after any operations from empty, an address is known if and only if an insert of the run added it and since then neither a cleanup came nor a pass that found it expired with a count of one |
| `NatHistory.EntryTells` | drivers/aic8800/aic8800_fdrv/aic_br_ext.c:477-512 | an entry has the MAC address of the last insert of its key, the time of the last insert or refresh, and as 32-bit count one, plus the lookups since it was added that found it not expired, less the passes that found it expired |
| `NatHistory.EntryAdded` | drivers/aic8800/aic8800_fdrv/aic_br_ext.c:498-509 | every entry was added by an insert of the run, with memory, when its key was unknown, that nothing has undone |
| `NatHistory.History` | drivers/aic8800/aic8800_fdrv/aic_br_ext.c:404-712 | both together for every entry; as a number the count is exact while it stays within 32 bits |
| `NatHistory.LastInsertWins` | drivers/aic8800/aic8800_fdrv/aic_br_ext.c:486-495 | after an insert of a known address, or with memory of a new one, it is known with that MAC address and time |
| `NatTable.Chain.HashLink` | drivers/aic8800/aic8800_fdrv/aic_br_ext.c:371-385 | the entry becomes the first of its chain; the chain stays acyclic with every back pointer at the link that points to it, and the map gains the entry |
| `NatTable.Chain.HashUnlink` | drivers/aic8800/aic8800_fdrv/aic_br_ext.c:388-401 | the entry leaves its chain, wherever it is; links and back pointers stay right, and the map loses exactly its key |
| `NatTable.Chain.Find` | drivers/aic8800/aic8800_fdrv/aic_br_ext.c:477-495 | the walk finds the entry of a key exactly when the map has one |
| `NatTable.Chain.ExpirePass` | drivers/aic8800/aic8800_fdrv/aic_br_ext.c:637-707 | one pass over a chain, which unlinks while it walks, ages every entry once; the shortcut is given up exactly when its entry goes |
| `NatTable.Chain.Clear` | drivers/aic8800/aic8800_fdrv/aic_br_ext.c:604-622 | the chain is empty, and a shortcut to one of its entries is given up |
| `NatBridge.Vif.NetworkInsert` | drivers/aic8800/aic8800_fdrv/aic_br_ext.c:477-512 | the 16 chains refine one map, which is what all operations so far leave; after an insert the address is known, if it was or there is memory, with this MAC address and time; no other entry changes |
| `NatBridge.Vif.LookupAndReplace` | drivers/aic8800/aic8800_fdrv/aic_br_ext.c:404-474 | found exactly when the key is known; the six bytes of the frame's destination become the MAC address of the last insert of the key, exactly when its last insert or refresh has not expired; nothing else of the frame changes |
| `NatBridge.Vif.TakeShortcut` | drivers/aic8800/aic8800_fdrv/rwnx_tx.c:1107-1128 | the shortcut names a linked entry or nothing, is looked up again for a new source address, and its entry's time is refreshed |
| `NatBridge.Vif.RefreshShortcut` | drivers/aic8800/aic8800_fdrv/rwnx_tx.c:1081-1089 | the time of the shortcut's entry is refreshed in the map |
| `NatBridge.Vif.FindEntry` | drivers/aic8800/aic8800_fdrv/aic_br_ext.c:1583-1607 | the entry of an address lies in the chain of its hash, and is found exactly when the map has it |
| `NatBridge.Vif.Expire` | drivers/aic8800/aic8800_fdrv/aic_br_ext.c:628-712 | every entry is aged once, as one more expire pass of the operations so far; the shortcut stays null or linked |
| `NatBridge.Vif.Cleanup` | drivers/aic8800/aic8800_fdrv/aic_br_ext.c:600-625 | the map is empty and there is no shortcut |
| `NatBridge.PartsAge` | drivers/aic8800/aic8800_fdrv/aic_br_ext.c:634-709 | ageing the parts of the map that the buckets hold ages the map |
| `Vlan.RetagUntag` | drivers/aic8800/aic8800_fdrv/aic_br_ext.c:1427-1483 | taking a tag out and putting it in are inverse to each other |
| `Vlan.TagCommutes` | drivers/aic8800/aic8800_fdrv/aic_br_ext.c:1427-1483 | a tagged unicast frame comes out as its untagged counterpart would, with the same tag |
| `Vlan.Ipv4Frame` | drivers/aic8800/aic8800_fdrv/aic_br_ext.c:1440-1466 | an IPv4 frame for the shortcut's IP address gets the shortcut's MAC address in front and no lookup, with database and shortcut enabled; with the database disabled only one for the bridge's own address is looked up; any other is looked up |
| `Vlan.ArpFrame` | drivers/aic8800/aic8800_fdrv/aic_br_ext.c:1440-1466 | an ARP frame is looked up unless the database is disabled and it asks for another address than the bridge's |
| `Vlan.OtherFrame` | drivers/aic8800/aic8800_fdrv/aic_br_ext.c:1440-1466 | any other frame without a tag is looked up unless the database is disabled |
| `Vlan.MulticastPasses` | drivers/aic8800/aic8800_fdrv/aic_br_ext.c:1427 | a multicast frame passes unchanged |
| `Vlan.Skb.Lift` | drivers/aic8800/aic8800_fdrv/aic_br_ext.c:1431-1437 | the overlapping 16-bit copies move the twelve address bytes up by four and disturb no other byte |
| `Vlan.Skb.Lower` | drivers/aic8800/aic8800_fdrv/aic_br_ext.c:1468-1475 | the copies move them back and the tag fills the gap |
| `Vlan.Skb.Nat25HandleFrame` | drivers/aic8800/aic8800_fdrv/aic_br_ext.c:1406-1483 | the frame in the buffer becomes the handled frame with its tag, and no byte before or behind it changes |
| `Pppoe.AnswerStripped` | drivers/aic8800/aic8800_fdrv/aic_br_ext.c:1220-1262 | from an answer with tags before and behind the relay tag, stripping leaves those tags in order and the client's own value, if it had one |
| `Pppoe.RelayRoundTripIff` | drivers/aic8800/aic8800_fdrv/aic_br_ext.c:1149-1262 | inserting and stripping give back the client's relay tag, first, and the other tags in order, if and only if it sent no relay tag or a non-empty one |
| `Pppoe.EmptyTagIsLost` | drivers/aic8800/aic8800_fdrv/aic_br_ext.c:1220-1262 | an empty relay tag does not come back |
| `Pppoe.Skb.FindTag` | drivers/aic8800/aic8800_fdrv/aic_br_ext.c:78-93 | the offset of the first tag of a kind in any well-formed frame, or none |
| `Pppoe.Skb.AddTag` | drivers/aic8800/aic8800_fdrv/aic_br_ext.c:96-113 | for any tail room: as many bytes as the tag is taken to have, from the tag buffer and behind it, come first and the tags move up, with the length field counting them modulo 2^16; refused exactly when there is no room for them |
| `Pppoe.Skb.PullAndMerge` | drivers/aic8800/aic8800_fdrv/aic_br_ext.c:115-134 | the bytes are cut out and the frame closes up; refused when they do not lie in the frame |
| `Pppoe.CutTag` | drivers/aic8800/aic8800_fdrv/aic_br_ext.c:115-134 | cutting the bytes of a tag and correcting the length field gives the frame without that tag |
| `Pppoe.Skb.TakeOwn` | drivers/aic8800/aic8800_fdrv/aic_br_ext.c:1157-1175 | the client's own relay value is copied out and its tag deleted, unless it does not fit |
| `Pppoe.Skb.InsertRelay` | drivers/aic8800/aic8800_fdrv/aic_br_ext.c:1149-1188 | for any tail room: the frame has the relay tag first and the client's other tags behind it if and only if the host is big-endian, the value is at most 28 bytes, and tag and frame fit; the exact bytes otherwise, for both return values |
| `Pppoe.TagAdded` | drivers/aic8800/aic8800_fdrv/aic_br_ext.c:96-113 | on a little-endian host what AddTag leaves never carries the relay tag in a correct frame |
| `Pppoe.Skb.StripRelay` | drivers/aic8800/aic8800_fdrv/aic_br_ext.c:1220-1262 | the destination becomes the MAC address in the relay tag, the relay's part is gone, the length is correct |
| `Pppoe.RelayExchange` | drivers/aic8800/aic8800_fdrv/aic_br_ext.c:1149-1262 | a whole exchange on a big-endian host: the answer reaches the client under its own address with its own relay value (Appendix A of RFC 2516) |

## Left out

- The kernel's USB, SDIO, timer, thread and memory calls: their outcomes are inputs of the model (an allocation that fails, a submission that fails, a timer that may fire at any moment).
- `TxRing.Ring.TxdescPush`: the contents of descriptors and their ready flags, and the doorbell to the firmware.
- `TcpAck.TcpAckManage.FilterSendTcpAck`: the parsing of IP and TCP headers and options; its outcome is an input. The window check of the filter only changes a value that nothing reads.
- The older handler `tcp_ack_handle`, which nothing calls.
- `TxPool.RunInv`: the pool is a state machine over values and not a class, since three actors interleave on it; the network queue calls behind tbusy and the aggregating variant of the transmit path are not modelled.
- `Reassembly.RoundTrip`: concerns the 2048-byte setting; the 12288-byte setting is covered by `Reassembly.RoundTripIff` and fails.
- `Deaggregate.SplitRecords`: stops after a number of turns given by its caller, since the loop may run forever; allocation failures for single records, and the SDIO variant of the loop, are not modelled.
- `SdioAggr.TxPriv.Aggr`: the capacity of the aggregate buffer, which the driver does not check.
- `NatBridge.Vif.TakeShortcut`: the tests on the frame that select this path.
- `Vlan.Skb.Nat25HandleFrame`: frames without the headers it looks at (14 bytes, or 16 behind an 802.1Q type); and what the database lookup does to the untagged frame, which is a parameter.
- The IPX, AppleTalk and IPv6 address rewriting and the DHCP flag of the bridge: byte edits of the same kind.
- Chip variants, firmware tables, vendor commands, wireless extensions, steering and the manager interface.
- The receive reorder window, of which only structures are in these files.
