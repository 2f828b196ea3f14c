# Licode media server: proofs about FEC, recording, congestion control and process allocation

A Dafny model of the parts of Licode's media server (erizo) and its agents in which a
small error loses or corrupts media: the parity code that repairs RTP loss, the path
that records VP8 video, the arithmetic and state machines of congestion control, ICE
candidate lines, and the pool of media processes. Imperative code is modelled by classes
and methods with loops, each proved against a specification function or predicate; the
properties are lemmas over every input, every run or every reachable state of those.

## What is modelled

**Forward error correction** (RFC 5109). `Bytes`, `SeqNum`, `Integers` and `Buffers` are octets,
16-bit circular numbers, machine integers, and copying and XORing into buffers. `ParityCode`
says what it means that an FEC packet protects a list of packets and what is recovered from it.
`FecEncoder`, `MaskExpansion`, `MaskTables` and `FecGenerator` are the encoder, down to the
in-place shifting of mask columns. `FecDecoder` is the decoder on values; `FecRecovery` and
`FecMachine` are its loops and its class, and refine it. `Peeling`, `FecInvariant`,
`FecAuthentic` and `FecOutcome` prove what it does. `FecReceiver` adds and strips RED headers
(RFC 2198, single block) and hands packets up; `FecDelivery` says which numbers go up over whole
runs, `FecRepair` what a whole run recovers, `FecRetention` what a call keeps and forgets, by
tests on the state before it, and `FecInputs` holds runs on which less holds than one might
expect.

The central result is `FecAuthentic.RunRecoversWhatWasSent`: whatever is lost, duplicated or
reordered, the decoder only ever holds packets that were sent. It rests on
`ParityCode.RecoveryInvertsGeneration`, on `FecGenerator.GenerateFEC` with
`FecAuthentic.EncodedIsSent` (the encoder produces what the decoder assumes), and on the
order and link invariants. `FecOutcome.AttemptRecoversLeastSet` says how much is recovered:
the least set closed under "an FEC packet with one missing member yields it".
`FecRepair.RunRecoversClosure` carries that over to whole runs, where it does not depend on
order or batches; `FecRepair.LossIsRepaired` and `FecRetention.LossIsRepairedAtAnyTime` are
what FEC is for.

**Recording.** `PacketQueue` is the reorder queue and the sorted set that it refines;
`Vp8Payload` and `Vp8Parser` are the VP8 payload descriptor (RFC 7741) and its parser;
`Vp8Fragmenter` cuts frames into packets; `VideoRecorder` rebuilds them, and `Assembly` says
what it makes of any packets at all.
`Recording.RecordsWholeFrames` composes all of it, and `ProtectedRecording` puts the FEC
receiver in front, down to the octets on the wire.

**Congestion control.** `Remb` is the bit rate field of REMB messages, `BandwidthReport` the
aging minimum that is reported upstream, `RateLimiter` the windowed limiter of the send
loop, and `BandwidthMonitor` the state machine that raises bandwidth alerts.

**Signalling and processes.** `Candidates` prints, splits and parses ICE candidates;
`ProcessPool` is the round-robin pool of the agent.

## Conventions

- Octets are 8-bit vectors; machine integers are integers with explicit ranges, and every
  wrap-around or truncation that can occur is written out. A packet is its sequence of octets.
- Circular order is a strict order only inside a half window (section 3.2 of RFC 1982).
  Results over runs take a ghost base of unwrapped numbers that may move between calls;
  whatever is live lies less than 2^15 above it.
- Media packets have RTP version 2, one SSRC and at least 12 octets, and fit their buffers
  together with the FEC headers. The length check of the encoder has an empty body
  (`forward_error_correction.cc` lines 152 to 156), so this is a demand on callers.
- A clock reading is a parameter. A method under a mutex is one step.

## Where the code does less than one might expect

- The encoder moves to the next mask byte only when the position is exactly 8. A gap in the
  sequence numbers that jumps over a byte boundary leads it off the mask; `CursorExact` is the
  exact condition under which it does not, and `CursorJumpsOff` an example.
- The recorder compares with the last number plus one as an `int`, so that 0 never follows
  65535. A frame that straddles the wrap is dropped; this is part of what intact means.
- `hasData` with a negative depth may hold for an empty queue (`HasDataMeansPop`).
- A duplicate that is the front of its batch goes up again, and so does a recovered packet
  whose original comes late (`DuplicateGoesUpAgain`). After a reset of the decoder a number can go
  up again from the recovered list (`ForgottenGoesUpAgain`, `AgainOnlyAfterReset`). `GoesUpExactly`
  is the exact condition. Only the front media packet of a batch goes up by itself. In the recorder,
  batches have one packet and the queue gives no number out twice.
- The age test of FEC packets takes the plain difference of 16-bit numbers, so an FEC packet is
  dropped whenever the numbers wrap behind it (`StaleExactly`, `WrapLosesRepair`).
- The header length reads the length of an extension at a fixed place, although contributing
  sources may stand there (`HeaderEndsExactly`).
- A full list is forgotten if the next number differs by more than 48, by the plain difference, so
  also at a wrap (`ListedStays`, `FarListIsForgotten`).
- The recorder does not check its buffer. It suffices exactly if no intact beginning of a frame is
  longer than 200000 octets (`StreamFits`, `RecordsWhatFits`).
- A rate too large for 32-bit window arithmetic is not limited (`QuotaKeptExactly`,
  `OverflowBreaksQuota`).
- A rate of more than 32 bits does not survive the 32-bit shift of the REMB receiver
  (`ReceivedIsFloor`); the only caller of the encoder passes 32 bits.
- Lines with an IPv6 address are not read back, because the colon is a delimiter
  (`PrintedReadBack`, `ColonNotReadBack`).
- A dropped process is handed out again at its turn until it closes (`HandsOutLive`,
  `HandedOutAtTurn`).

## Model

| member | source | states |
|---|---|---|
| SeqNum.ComparatorsAgree | src/liberizo/rtp/webrtc/forward_error_correction.cc:76-80 | The comparator of the decoder and that of the reorder queue are the same relation on all pairs of 16-bit numbers, and inside any half window both are the order of the unwrapped numbers |
| ParityCode.ParityAppend | src/liberizo/rtp/webrtc/forward_error_correction.cc:216-299 | The parity bit string of two lists of packets of any lengths is the XOR of theirs, shorter ones padded with zeros |
| ParityCode.ParityCancels | src/liberizo/rtp/webrtc/forward_error_correction.cc:685-707 | XORing in all protected packets but one leaves exactly the bit string of that one, in every octet |
| ParityCode.RecoveryInvertsGeneration | src/liberizo/rtp/webrtc/forward_error_correction.cc:645-724 | For any protected list of unequal lengths, what the decoder recovers from the FEC packet and all packets but one is that one, octet for octet and with its length, although the FEC header overwrites the two version bits |
| FecEncoder.CursorExact | src/liberizo/rtp/webrtc/forward_error_correction.cc:284-294 | The running mask position is that of every packet's own column if and only if no step of the sequence numbers jumps over the start of a mask byte |
| FecEncoder.CursorJumpsOff | src/liberizo/rtp/webrtc/forward_error_correction.cc:290-294 | A concrete gap over a byte boundary after which the position is no longer a bit of the mask |
| FecEncoder.GenerateFecBitString | src/liberizo/rtp/webrtc/forward_error_correction.cc:229-298 | One FEC packet holds the parity of exactly the media packets that its mask row selects, and the length of the longest |
| FecEncoder.CopyMedia | src/liberizo/rtp/webrtc/forward_error_correction.cc:245-258 | The first protected packet fills the four fields of an untouched buffer |
| FecEncoder.XorMedia | src/liberizo/rtp/webrtc/forward_error_correction.cc:259-279 | Every later one is XORed into the same fields, in place, and nothing else changes |
| FecEncoder.GenerateFecUlpHeader | src/liberizo/rtp/webrtc/forward_error_correction.cc:427-450 | The header gets E, L, the sequence number base, the protection length and the mask, and nothing else changes |
| FecEncoder.HeaderKeepsParity | src/liberizo/rtp/webrtc/forward_error_correction.cc:427-450 | With the header written, the packet still protects the selected packets in every recoverable bit, and its L bit tells the mask size |
| MaskExpansion.CopyColumn | src/liberizo/rtp/webrtc/forward_error_correction.cc:379-394 | One column is shifted out of every row of the old mask and into every row of the new one, in place |
| MaskExpansion.InsertZeroColumns | src/liberizo/rtp/webrtc/forward_error_correction.cc:368-377 | Zero columns are shifted into the current byte of every row, as far as it reaches |
| MaskExpansion.ColumnsSpread | src/liberizo/rtp/webrtc/forward_error_correction.cc:311-313 | Packet i lies at column i or later |
| MaskExpansion.GapFree | src/liberizo/rtp/webrtc/forward_error_correction.cc:313-317 | No missing sequence number means that column i is packet i |
| MaskExpansion.ExpandColumns | src/liberizo/rtp/webrtc/forward_error_correction.cc:319-365 | The loop over gaps and columns leaves the sparse expansion of the old mask in the new one |
| MaskExpansion.InsertZerosInBitMasks | src/liberizo/rtp/webrtc/forward_error_correction.cc:301-366 | Every row of the result has old bit i at the column of packet i and zeros everywhere else, for all gap patterns of span up to 48, and the returned count is the span |
| MaskTables.FecPacketsAtMostMedia | src/liberizo/rtp/webrtc/forward_error_correction.cc:204-214 | The number of FEC packets never exceeds that of the media packets, so the assertion holds, and is zero exactly without protection |
| MaskTables.FecPacketsRounded | src/liberizo/rtp/webrtc/forward_error_correction.cc:204-214 | It is media times factor over 256, rounded to the nearest, but one where that would round a positive share to zero |
| MaskTables.ImportantRows | src/liberizo/rtp/webrtc/forward_error_correction_internal.cc:243-262 | As many rows go to the important packets alone as there are important packets, but at most half of all rows rounded down, and none without unequal protection |
| MaskTables.FitSubMask | src/liberizo/rtp/webrtc/forward_error_correction_internal.cc:40-55 | The rows of a sub-mask are copied to the front of the rows of the mask from the given row on; nothing else changes |
| MaskTables.FittedRowsGood | src/liberizo/rtp/webrtc/forward_error_correction_internal.cc:181-238 | A table entry of nonzero rows that is fitted into zero rows gives nonzero rows confined to its columns, and leaves the other rows alone |
| MaskTables.UnequalProtectionMask | src/liberizo/rtp/webrtc/forward_error_correction_internal.cc:309-345 | The rows for the important packets, bit for bit those of their table entry, stand on top, and those of the entry for all media packets below; every row is nonzero and confined to its columns |
| MaskTables.GeneratePacketMasks | src/liberizo/rtp/webrtc/forward_error_correction_internal.cc:347-373 | For any valid table every row of the mask is the row of the table that it is to be, bit for bit; all are nonzero and confined to the media columns, the important ones to the important columns |
| MaskTables.EveryColumnProtected | src/liberizo/rtp/webrtc/forward_error_correction_internal.cc:347-373 | Every media packet is protected by some row |
| FecGenerator.CoveredAscends | src/liberizo/rtp/webrtc/forward_error_correction.cc:547-565 | The protected list read from a mask is in strict circular order, whatever the base, also across 65535 to 0 |
| FecGenerator.MaskNamesSelected | src/liberizo/rtp/webrtc/forward_error_correction.cc:427-450 | Mask bits that equal a row over the columns of the packets name exactly the offsets of the selected packets |
| FecGenerator.SelectedSeqNums | src/liberizo/rtp/webrtc/forward_error_correction.cc:547-565 | Base plus offset, modulo 2^16, is the sequence number of the selected packet |
| FecGenerator.ExpansionSelectsSame | src/liberizo/rtp/webrtc/forward_error_correction.cc:301-366 | The expanded row selects the same media packets, at their columns, as the original row did by position |
| FecGenerator.RowSelectsSome | src/liberizo/rtp/webrtc/forward_error_correction.cc:296 | A nonzero row confined to the media columns selects a packet, so the assertion on the packet length never fires |
| FecGenerator.GenerateFEC | src/liberizo/rtp/webrtc/forward_error_correction.cc:116-202 | As many FEC packets as the rounded share of the protection factor; each protects exactly the media packets of its table row, and the decoder reads back exactly their sequence numbers from it; every media packet is protected by one of them; important rows protect important packets only; errors for too many or too short packets |
| FecRecovery.InitRecovery | src/liberizo/rtp/webrtc/forward_error_correction.cc:645-670 | The buffer starts as the bit string of the FEC packet with the SSRC |
| FecRecovery.XorPackets | src/liberizo/rtp/webrtc/forward_error_correction.cc:685-707 | Another protected packet is XORed out of the residue, in place |
| FecRecovery.FinishRecovery | src/liberizo/rtp/webrtc/forward_error_correction.cc:672-683 | Version 2, the sequence number and the recovered length turn the residue into the recovered packet |
| FecRecovery.RecoverPacket | src/liberizo/rtp/webrtc/forward_error_correction.cc:709-724 | The loop over the protected list recovers the specified packet and its number |
| FecRecovery.NumCoveredPacketsMissing | src/liberizo/rtp/webrtc/forward_error_correction.cc:767-781 | The count of missing packets, cut off at two |
| FecMachine.LowerBound | src/liberizo/rtp/webrtc/forward_error_correction.cc:512-525 | The halving search returns the first position whose number is not older, if the list is parted by age; the number stands there if and only if it is in the list |
| FecMachine.SetIntersection | src/liberizo/rtp/webrtc/forward_error_correction.cc:584-605 | The merge of the sorted lists is the recovered packets that the FEC packet protects, in order |
| FecMachine.AssignRecoveredPackets | src/liberizo/rtp/webrtc/forward_error_correction.cc:584-605 | Every protected packet gets the data of the recovered packet with its number, if there is one, and no other |
| FecMachine.ReadMask | src/liberizo/rtp/webrtc/forward_error_correction.cc:547-565 | The loops over mask bytes and bits build the specified protected list |
| FecMachine.ForwardErrorCorrection.UpdateCoveringFECPackets | src/liberizo/rtp/webrtc/forward_error_correction.cc:512-525 | Every FEC packet that protects the packet learns its data; the others are unchanged |
| FecMachine.ForwardErrorCorrection.InsertMediaPacket | src/liberizo/rtp/webrtc/forward_error_correction.cc:482-510 | A duplicate changes nothing; a new packet goes into its circular place, marked as returned, and into the FEC packets that cover it |
| FecMachine.ForwardErrorCorrection.InsertFECPacket | src/liberizo/rtp/webrtc/forward_error_correction.cc:527-582 | Duplicates and empty masks are dropped; another packet goes into its circular place with its known data, and the oldest goes if there are more than 48 |
| FecMachine.ForwardErrorCorrection.InsertPackets | src/liberizo/rtp/webrtc/forward_error_correction.cc:607-643 | A batch is inserted in order, stale FEC packets go first, old recovered packets last |
| FecMachine.ForwardErrorCorrection.AttemptRecover | src/liberizo/rtp/webrtc/forward_error_correction.cc:726-765 | The loop that restarts on success terminates (list length, then rest of the list) and is the specified peeling, for any FEC packets whose recovered packets fit the buffers |
| FecMachine.ForwardErrorCorrection.ResetState | src/liberizo/rtp/webrtc/forward_error_correction.cc:453-480 | Both lists are emptied |
| FecMachine.ForwardErrorCorrection.DecodeFEC | src/liberizo/rtp/webrtc/forward_error_correction.cc:807-825 | A call is the specified step, for any packets in a half window whose recovered packets fit the buffers |
| FecMachine.AuthenticDecodable | src/liberizo/rtp/webrtc/forward_error_correction.cc:807-825 | Packets that were sent always meet what that asks for |
| Peeling.NewsClosed | src/liberizo/rtp/webrtc/forward_error_correction.cc:726-765 | What is recovered is closed: no FEC packet has exactly one member that is neither known nor recovered |
| Peeling.NewsLeast | src/liberizo/rtp/webrtc/forward_error_correction.cc:726-765 | It is contained in every set that is closed in this way |
| Peeling.LeftNeedTwo | src/liberizo/rtp/webrtc/forward_error_correction.cc:726-781 | Every FEC packet that is left has at least two missing members |
| Peeling.NewsMissed | src/liberizo/rtp/webrtc/forward_error_correction.cc:726-765 | Only packets that some FEC packet missed are recovered, and each at most once |
| Peeling.OrderIrrelevant | src/liberizo/rtp/webrtc/forward_error_correction.cc:726-765 | The set recovered does not depend on the order of the FEC list |
| FecOutcome.AttemptRecoversLeastSet | src/liberizo/rtp/webrtc/forward_error_correction.cc:726-765 | All of this at once, for a FEC list in any order, and the recovered list ends as the newest 48 of the old and the recovered packets |
| FecOutcome.AttemptKeepsNewest | src/liberizo/rtp/webrtc/forward_error_correction.cc:726-801 | Although old packets are forgotten after every single recovery, the list ends as the newest 48 of everything |
| FecOutcome.OrderOfFecsIrrelevant | src/liberizo/rtp/webrtc/forward_error_correction.cc:726-765 | For any two orders of the same FEC packets the recovered lists have the same numbers and the same data in the same order |
| FecInvariant.RecoverAtLinked | src/liberizo/rtp/webrtc/forward_error_correction.cc:733-752 | One recovery keeps the recovered list strictly ascending, duplicate-free and at most 48 long, and every protected packet in it known to every FEC packet that covers it |
| FecInvariant.DecodeOrdered | src/liberizo/rtp/webrtc/forward_error_correction.cc:807-825 | Every call keeps both lists strictly ascending in circular order, duplicate-free and at most 48 long, and the links |
| FecAuthentic.EncodedIsSent | src/liberizo/rtp/webrtc/forward_error_correction.cc:116-202 | What the encoder makes of sent packets satisfies the assumption that the decoder results make of FEC packets |
| FecAuthentic.RecoverIsSent | src/liberizo/rtp/webrtc/forward_error_correction.cc:709-724 | From a true FEC packet with one member missing exactly the sent packet is recovered |
| FecAuthentic.DecodeAuthentic | src/liberizo/rtp/webrtc/forward_error_correction.cc:807-825 | One call on sent packets keeps every entry of the recovered list, and every packet that an FEC packet knows, one that was sent |
| FecAuthentic.RunKeepsInvariant | src/liberizo/rtp/webrtc/forward_error_correction.cc:807-825 | All invariants hold after every run of calls while the live window moves on |
| FecAuthentic.RunRecoversWhatWasSent | src/liberizo/rtp/webrtc/forward_error_correction.cc:482-825 | Over every run on any lost, duplicated or reordered mix of sent media and FEC packets, every entry of the recovered list has exactly the octets and length of the sent packet with its number |
| FecReceiver.StripRedInvertsWrapMedia | src/liberizo/rtp/webrtc/fec_receiver_impl.cc:175-193 | Stripping the RED header gives back the media packet with its payload type and marker |
| FecReceiver.StripRedInvertsWrapFec | src/liberizo/rtp/webrtc/fec_receiver_impl.cc:166-173 | Stripping gives back the FEC packet and the SSRC of its RTP header |
| FecReceiver.FecReceiverImpl.AddReceivedRedPacket | src/liberizo/rtp/webrtc/fec_receiver_impl.cc:72-206 | A packet in single-block form is appended as FEC or media by its payload type, and dropped if nothing is left |
| FecReceiver.FecReceiverImpl.HandUp | src/liberizo/rtp/webrtc/fec_receiver_impl.cc:229-243 | Exactly the entries that are not marked are handed up, in order, and all are marked |
| FecReceiver.FecReceiverImpl.ProcessReceivedFec | src/liberizo/rtp/webrtc/fec_receiver_impl.cc:208-246 | The front media packet, then what decoding has newly recovered is handed up; afterwards nothing is waiting and every entry is marked |
| FecDelivery.ProcessKeeps | src/liberizo/rtp/webrtc/fec_receiver_impl.cc:208-246 | A call keeps the invariants and leaves nothing to hand up; what it hands up was sent, each packet under its number |
| FecDelivery.RunHandsUpWhatWasSent | src/liberizo/rtp/webrtc/fec_receiver_impl.cc:208-246 | Over every run only sent packets are handed up |
| FecDelivery.GoesUpExactly | src/liberizo/rtp/webrtc/fec_receiver_impl.cc:208-246 | A number goes up in a call if and only if it is that of the front media packet, or it is not in the list the call starts from, is in the least set that the FEC packets recover, and has fewer than 48 newer ones; so whatever has gone up before goes up again exactly then |
| FecDelivery.RunHandsUpExactly | src/liberizo/rtp/webrtc/fec_receiver_impl.cc:208-246 | The same in every call of every run |
| FecDelivery.RunHandsUpNew | src/liberizo/rtp/webrtc/fec_receiver_impl.cc:229-243 | In every call of every run what goes up from the list is pairwise different, was not in the list when the call began, and is no media packet of the batch |
| FecDelivery.AgainOnlyAfterReset | src/liberizo/rtp/webrtc/fec_receiver_impl.cc:229-243 | Over every run a number that has gone up goes up from the list in a later call only if the decoder has been reset in between |
| FecInputs.DuplicateGoesUpAgain | src/liberizo/rtp/webrtc/fec_receiver_impl.cc:213-219 | A run in which a duplicate media packet goes up a second time |
| FecInputs.ForgottenGoesUpAgain | src/liberizo/rtp/webrtc/forward_error_correction.cc:810-820 | A run in which a number goes up a second time from the list, after a reset |
| FecRepair.RunWithin | src/liberizo/rtp/webrtc/forward_error_correction.cc:607-765 | Over any run, whatever is forgotten on the way, the recovered list stays inside every set that has the received media packets and is closed under recovery by the received FEC packets |
| FecRepair.RunRecoversClosure | src/liberizo/rtp/webrtc/forward_error_correction.cc:607-825 | In a run of at most 48 packets near each other the list ends as exactly the least such set, whatever the order, the batches and the duplicates |
| FecRepair.OrderAndBatchesIrrelevant | src/liberizo/rtp/webrtc/forward_error_correction.cc:607-825 | Two such runs on the same packets recover the same numbers |
| FecRepair.OneMissingGoesUp | src/liberizo/rtp/webrtc/fec_receiver_impl.cc:208-246 | What an FEC packet misses alone goes up in that call, exactly if fewer than 48 numbers are newer, and is listed afterwards unless the list is full of newer ones |
| FecRepair.LossIsRepaired | src/liberizo/rtp/webrtc/fec_receiver_impl.cc:208-246 | If an FEC packet of the encoder and all its media packets but one are received in such a run, in whatever order, the lost one is listed in the end and has been handed up as it was sent |
| FecRepair.StaleExactly | src/liberizo/rtp/webrtc/forward_error_correction.cc:612-629 | In a half window the age test of FEC packets means a distance above 0x3fff, or a wrap between the two numbers however near they are |
| FecRetention.ListedStays | src/liberizo/rtp/webrtc/forward_error_correction.cc:807-825 | If the list has less than 48 entries, or the first new number differs from the newest listed one by at most 48, everything listed stays listed, unless the list becomes full of newer packets |
| FecRetention.FarListIsForgotten | src/liberizo/rtp/webrtc/forward_error_correction.cc:807-825 | Otherwise all is forgotten: what is listed or waits afterwards comes from the batch or has been recovered in the call |
| FecRetention.StaysWhileNear | src/liberizo/rtp/webrtc/forward_error_correction.cc:807-825 | Over any run a listed number stays listed, unless the list becomes full of newer ones, as long as no call finds the list full and far away |
| FecRetention.OneMissingIsRepaired | src/liberizo/rtp/webrtc/fec_receiver_impl.cc:208-246 | If an FEC packet misses one member alone and the others are in the list before the call or in the batch, that one is listed afterwards, or the list is full of newer packets; if it is listed it goes up in this call |
| FecRetention.LossIsRepairedAtAnyTime | src/liberizo/rtp/webrtc/fec_receiver_impl.cc:208-246 | In a run of any length: when an FEC packet of the encoder comes alone and all its members but one are listed, the lost packet is listed and has been handed up as it was sent, or the list is full of newer packets |
| FecRetention.StaleOldestGoes | src/liberizo/rtp/webrtc/forward_error_correction.cc:614-629 | The age test takes out the oldest FEC packet and no other, exactly if it is more than 0x3fff away or the numbers wrap in between |
| FecRetention.FecListKeepsNewest | src/liberizo/rtp/webrtc/forward_error_correction.cc:527-582 | A new FEC packet joins the list, which keeps the newest 48; the recovered list is untouched |
| FecInputs.WrapLosesRepair | src/liberizo/rtp/webrtc/forward_error_correction.cc:612-629 | A run of three live packets in which the age test drops an FEC packet at the wrap, and a loss is not repaired |
| PacketQueue.RtpPacketQueue.constructor | src/liberizo/rtp/RtpPacketQueue.cpp:10-21 | A depth that is not below the maximum resets both to the defaults |
| PacketQueue.RtpPacketQueue.Insert | src/liberizo/rtp/RtpPacketQueue.cpp:45-67 | The scan drops a duplicate, and otherwise puts the packet before the first older one or at the end |
| PacketQueue.DepthIsSpan | src/liberizo/rtp/RtpPacketQueue.cpp:106-118 | The depth exceeds a limit exactly if there are two packets and a time base, and the 32-bit clock ran more than that many seconds of ticks from the oldest packet forward to the newest |
| PacketQueue.RtpPacketQueue.DropOldest | src/liberizo/rtp/RtpPacketQueue.cpp:69-73 | The trim loop terminates and leaves the longest beginning that does not span more than the maximum; every longer one does |
| PacketQueue.RtpPacketQueue.PushPacket | src/liberizo/rtp/RtpPacketQueue.cpp:28-74 | A late packet changes nothing; after any other push the queue is the longest beginning of the queue with the packet that does not span more than the maximum depth, and so nothing is trimmed without a time base |
| PacketQueue.RtpPacketQueue.PopPacket | src/liberizo/rtp/RtpPacketQueue.cpp:77-92 | The oldest packet is given out exactly if there is one and the queue spans more than the depth, or the depth is negative or ignored |
| PacketQueue.RtpPacketQueue.HasData | src/liberizo/rtp/RtpPacketQueue.cpp:120-125 | True exactly if the queue spans more than the depth, or the depth is negative |
| PacketQueue.HasDataMeansPop | src/liberizo/rtp/RtpPacketQueue.cpp:77-125 | A pop that respects the depth succeeds exactly when hasData held, if and only if the queue has a packet or the depth is not negative |
| PacketQueue.ScanInserts | src/liberizo/rtp/RtpPacketQueue.cpp:45-67 | In a half window the scan is insertion into a strictly descending list of unwrapped numbers |
| PacketQueue.RunInOrder | src/liberizo/rtp/RtpPacketQueue.cpp:28-92 | Over every run the sorted set stays strictly descending, above everything given out, and what is given out strictly increases |
| PacketQueue.RunRefines | src/liberizo/rtp/RtpPacketQueue.cpp:28-92 | Over every run in a moving half window the queue of the class is the image of that sorted set |
| PacketQueue.RunAccounts | src/liberizo/rtp/RtpPacketQueue.cpp:28-92 | Over every run of the queue itself, in whatever windows its numbers lie, the pushed packets are exactly those given, queued, late, duplicate and trimmed, as multisets |
| PacketQueue.ItemsAccounted | src/liberizo/rtp/RtpPacketQueue.cpp:28-92 | The same of the sorted set |
| PacketQueue.RunIsClose | src/liberizo/rtp/RtpPacketQueue.cpp:28-92 | Over every run in a moving half window, packets given out one after the other are less than 2^15 apart |
| Vp8Payload.ParseRoundTrip | src/liberizo/rtp/RtpVP8Parser.cpp:161-216 | Parsing a serialized VP8 descriptor (sections 4.1 and 4.2 of RFC 7741) with any extension fields gives the descriptor and the payload behind it; a key frame is an even first octet at the start of partition 0 |
| Vp8Payload.ParsedExactly | src/liberizo/rtp/RtpVP8Parser.cpp:161-216 | Any payload is parsed exactly if its partition index is at most 8 and something follows the descriptor that its flags announce, and that is the data |
| Vp8Payload.ExtensionRoundTrip | src/liberizo/rtp/RtpVP8Parser.cpp:121-159 | The same for the extension octets |
| Vp8Parser.ParsePictureId | src/liberizo/rtp/RtpVP8Parser.cpp:53-71 | The reader of the picture number, of one or two octets, is the specified one, also when octets are missing |
| Vp8Parser.ParseTidAndKeyIdx | src/liberizo/rtp/RtpVP8Parser.cpp:85-101 | The same for the layer and key index octet |
| Vp8Parser.ParseExtension | src/liberizo/rtp/RtpVP8Parser.cpp:121-159 | The same for the whole extension |
| Vp8Parser.ParseVP8 | src/liberizo/rtp/RtpVP8Parser.cpp:161-216 | The parser that moves along the octets computes the specified result for every non-empty payload, broken ones included |
| Vp8Fragmenter.RtpVP8Fragmenter.constructor | src/liberizo/rtp/RtpVP8Fragmenter.cpp:33-51 | The queue of fragments is the specified one |
| Vp8Fragmenter.FragmentsTile | src/liberizo/rtp/RtpVP8Fragmenter.cpp:33-51 | The fragments cover the frame without gap or overlap, none is empty or too long, and only the first is marked |
| Vp8Fragmenter.FragmentsFull | src/liberizo/rtp/RtpVP8Fragmenter.cpp:33-51 | All but the last hold 1099 octets, and there are no more of them than it takes |
| Vp8Fragmenter.RtpVP8Fragmenter.GetPacket | src/liberizo/rtp/RtpVP8Fragmenter.cpp:20-31 | The next fragment with its descriptor, and whether it is the last; nothing from an empty queue |
| Vp8Fragmenter.FragmentParses | src/liberizo/rtp/RtpVP8Fragmenter.cpp:53-67 | The parser finds the start flag and exactly the part of the frame |
| Vp8Fragmenter.OutputProcessor.SendFragment | src/liberizo/media/MediaProcessor.cpp:521-538 | One packet with the low 16 bits of the counter and the marker on the last one |
| Vp8Fragmenter.OutputProcessor.PackageVideo | src/liberizo/media/MediaProcessor.cpp:500-542 | The whole frame is sent as its packets, and the counter moves on by their number |
| Vp8Fragmenter.PacketAt | src/liberizo/media/MediaProcessor.cpp:520-539 | Packet k has number n + k modulo 2^16, fragment k, and the marker exactly if it is the last |
| VideoRecorder.ExternalOutput.Write | src/liberizo/media/ExternalOutput.cpp:173-301 | A packet that fits the buffer moves the frame search as specified; a gap discards what is pending |
| VideoRecorder.ExternalOutput.CollectPacket | src/liberizo/media/ExternalOutput.cpp:198-300 | The eight cases of state, start and end |
| VideoRecorder.FeedFrame | src/liberizo/media/ExternalOutput.cpp:173-301 | After any part of a frame and any losses the recorder holds exactly the beginning of the frame, or has written it, or is idle |
| Recording.WholeOrNot | src/liberizo/media/ExternalOutput.cpp:173-301 | A frame is written if and only if it is intact, and the recorder is idle behind it |
| Assembly.WritesExactlyRuns | src/liberizo/media/ExternalOutput.cpp:173-301 | For any list of readable packets, of whatever frames and in whatever order, exactly the data of the runs of packets is written that begin with a start, end with a marker, and have no other start or marker and no missing number in between |
| Recording.IntactMeans | src/liberizo/media/ExternalOutput.cpp:178 | Intact means that every number arrived and that none but the first is a multiple of 2^16 |
| Recording.LossyStream | src/liberizo/media/ExternalOutput.cpp:173-301 | Over any loss exactly the intact frames are written, octet for octet and in order |
| Recording.StreamFits | src/liberizo/media/ExternalOutput.cpp:173-301 | Over any loss every packet fits the buffer when it is written, if and only if no intact beginning of a frame is longer than the buffer |
| Recording.GivenHaveShortLosses | src/liberizo/rtp/RtpPacketQueue.cpp:28-92 | What comes out of the queue increases, and fewer than 2^16 packets in a row are missing from it |
| Recording.RecordsWhatFits | src/liberizo/media/ExternalOutput.cpp:173-301 | With the reorder queue in between, any order of arrival, duplicates, losses and times of popping: exactly the intact frames are written, and the buffer suffices exactly if no intact beginning of a frame is longer |
| Recording.RecordsWholeFrames | src/liberizo/media/ExternalOutput.cpp:173-301 | For frames of at most 200000 octets every packet fits, and exactly the intact frames are written, octet for octet and in order |
| Recording.Drain | src/liberizo/media/ExternalOutput.cpp:489-493 | The loop that empties the queue at the end writes every packet, oldest first |
| Recording.SendDue | src/liberizo/media/ExternalOutput.cpp:472-475 | The loop that runs while the queue has data writes exactly the packets beyond the longest beginning that spans no more than the configured depth, oldest first |
| ProtectedRecording.SeenInvertsWire | src/liberizo/rtp/RtpHeaders.h:98-173 | An RTP packet read from its octets is the one that was written, with its version, number and SSRC where the FEC code looks for them |
| ProtectedRecording.HeaderEndsExactly | src/liberizo/rtp/RtpHeaders.h:170-173 | With contributing sources and an extension the header ends where it should, and the packet is seen as it was written, exactly if there is no extension, there are no sources, or the first source happens to hold the length of the extension |
| ProtectedRecording.WireIsGood | src/liberizo/media/MediaProcessor.cpp:520-539 | Packetized frames on the wire are a stream as the FEC results ask for |
| ProtectedRecording.PushedFromStream | src/liberizo/media/ExternalOutput.cpp:103-107 | Whatever the FEC receiver pushes into the queue is a packet of the stream, under its own number |
| ProtectedRecording.RecordsProtectedFrames | src/liberizo/media/ExternalOutput.cpp:408-425 | From end to end with FEC: whatever goes up once, twice or recovered, the queue gives no number out twice, and exactly the frames whose packets came out are written, octet for octet and in order |
| ProtectedRecording.PushEach | src/liberizo/media/ExternalOutput.cpp:103-107 | Everything handed up is pushed, in order |
| ProtectedRecording.QueueData | src/liberizo/media/ExternalOutput.cpp:408-425 | A RED packet goes through the FEC receiver and what is handed up into the queue; any other video packet into the queue |
| Remb.FieldOnTheWire | src/liberizo/rtp/RtpHeaders.h:464-467 | Behind the byte swap and the bit-field the octets are the exponent in six bits and the mantissa in 18, most significant first |
| Remb.FieldReadBack | src/liberizo/rtp/RtpHeaders.h:469-477 | The getters read back every exponent and mantissa |
| Remb.EncodingError | src/liberizo/rtp/RtpHeaders.h:455-467 | The mantissa has 18 bits; what is kept is the largest multiple of 2^exp not above the rate, exact below 0x3FFFF, and otherwise off by less than 2 rate / 0x3FFFF |
| Remb.ExponentUnique | src/liberizo/rtp/RtpHeaders.h:457-462 | The exponent is determined by the rate |
| Remb.RembPacket.FindExponent | src/liberizo/rtp/RtpHeaders.h:457-462 | The loop ends for every 64-bit rate, with the least exponent that fits, or with 64 if none does |
| Remb.RembPacket.SetREMBBitRate | src/liberizo/rtp/RtpHeaders.h:455-468 | The field is that of the least exponent and its mantissa |
| Remb.RateSurvives | src/liberizo/rtp/RtpHeaders.h:455-477 | For every rate of 32 bits the receiver gets the largest multiple of 2^exp not above it, with the same error bounds |
| Remb.ReceivedIsFloor | src/liberizo/rtp/RtcpProcessor.cpp:160 | With a wider rate, the 32-bit shift of the receiver keeps that multiple if and only if the rate has at most 32 bits |
| BandwidthReport.RtcpData.Reset | src/liberizo/rtp/RtcpProcessor.cpp:10-21 | A value below the cap doubles up to the cap |
| BandwidthReport.RtcpData.OnRemb | src/liberizo/rtp/RtcpProcessor.cpp:158-166 | A lower value, or the first one, is taken over, and only then a REMB is due |
| BandwidthReport.ReportedIsMinimum | src/liberizo/rtp/RtcpProcessor.cpp:10-21 | Over any run with any caps, the reported bandwidth is the minimum of all REMB values since the last zero one, each aged by the resets since it, and zero if there is none |
| BandwidthReport.AgedClosedForm | src/liberizo/rtp/RtcpProcessor.cpp:17-19 | With a fixed cap B, k resets leave r if r is at least B, and otherwise give the lesser of 2^k r and B |
| RateLimiter.WebRtcConnection.SendLoop | src/liberizo/WebRtcConnection.cpp:583-635 | Which packets go to which transport, and the window mark, until the packet that ends the thread |
| RateLimiter.OverflowBreaksQuota | src/liberizo/WebRtcConnection.cpp:618-625 | A run from the start, within one millisecond, that breaks the quota when eighty quotas do not fit 32 bits |
| RateLimiter.QuotaKeptExactly | src/liberizo/WebRtcConnection.cpp:618-625 | Every run from the start keeps every window within rate/80 plus the longest packet if and only if 80 times that fits 32 bits |
| RateLimiter.RunWithinQuota | src/liberizo/WebRtcConnection.cpp:618-625 | Over any run no window holds more than its quota |
| RateLimiter.WindowsApart | src/liberizo/WebRtcConnection.cpp:615-620 | Windows open at least 100 ms apart |
| RateLimiter.IntervalBytes | src/liberizo/WebRtcConnection.cpp:615-625 | In any interval of T ms the counters admit at most T/100 + 2 quotas |
| RateLimiter.VideoPasses | src/liberizo/WebRtcConnection.cpp:609-632 | All video passes without rate control, none with a rate of 1, and otherwise exactly what is counted |
| RateLimiter.OthersPass | src/liberizo/WebRtcConnection.cpp:609-632 | Packets that are not video are never dropped or reordered |
| RateLimiter.RateLimited | src/liberizo/WebRtcConnection.cpp:583-635 | For any traffic with a clock that does not go back, and rates read anew for every packet, the video bytes written within T ms are at most (T/100 + 2)(rate/80 + longest packet) for the highest rate |
| RateLimiter.LeavesOutOnlyTooMuch | src/liberizo/WebRtcConnection.cpp:605-633 | Over any run with a clock that does not go back: a packet that is not video goes to its transport, video with a rate of 0 out, with a rate of 1 nowhere, and with a higher rate out, unless the limited video octets written in the 100 ms before make more than that rate |
| RateLimiter.PassesAfterPause | src/liberizo/WebRtcConnection.cpp:615-627 | So a limited packet passes if none was written in the 100 ms before |
| RateLimiter.PassesWhenClockGoesBack | src/liberizo/WebRtcConnection.cpp:615-627 | It also passes when the clock has gone back behind all others |
| BandwidthMonitor.CalculateAverage | src/erizo/node-erizo/rpcPublic.js:41-49 | The mean of the values, rounded up |
| BandwidthMonitor.BandwidthReporter.PushValues | src/erizo/node-erizo/rpcPublic.js:84-93 | Only the last five values are kept, and their average |
| BandwidthMonitor.BandwidthReporter.OnInterval | src/erizo/node-erizo/rpcPublic.js:75-172 | One tick is the specified step and keeps the invariant |
| BandwidthMonitor.BandwidthReporter.OnStable | src/erizo/node-erizo/rpcPublic.js:96-106 | The third tick of a low average that does not rise leaves the stable state |
| BandwidthMonitor.BandwidthReporter.OnInsufficient | src/erizo/node-erizo/rpcPublic.js:107-129 | Recovery, giving up, scheduling, counting and starting a retry |
| BandwidthMonitor.BandwidthReporter.OnRecovering | src/erizo/node-erizo/rpcPublic.js:130-155 | Recovery, more time after an improvement, and the end of a retry |
| BandwidthMonitor.BandwidthReporter.OnWontRecover | src/erizo/node-erizo/rpcPublic.js:156-168 | The monitor is switched off for good |
| BandwidthMonitor.RunKeepsGood | src/erizo/node-erizo/rpcPublic.js:75-172 | Over any run alerts alternate between insufficient and one of recovered and wont-recover, which is the last; retries never exceed three; feedback is on exactly in the stable state until the monitor gives up |
| BandwidthMonitor.GivenUpForGood | src/erizo/node-erizo/rpcPublic.js:82-165 | Nothing changes after that |
| BandwidthMonitor.ObservesLastFive | src/erizo/node-erizo/rpcPublic.js:84-93 | After a report the last five of all values are kept, and their mean rounded up is the average |
| BandwidthMonitor.RunObserves | src/erizo/node-erizo/rpcPublic.js:75-172 | The same over any run until the monitor gives up; averages are compared with that of the tick before |
| BandwidthMonitor.TickRecoversExactly | src/erizo/node-erizo/rpcPublic.js:107-150 | While recovery is pending a tick returns to the stable state exactly if the average exceeds the upper threshold, unless giving up is settled; then feedback is on without a limit, and recovered is sent |
| BandwidthMonitor.StableTick | src/erizo/node-erizo/rpcPublic.js:96-106 | A tick counts a low average that does not rise, and the third one makes the bandwidth insufficient; any other changes nothing |
| BandwidthMonitor.InsufficientAtThirdLow | src/erizo/node-erizo/rpcPublic.js:96-106 | Over any run from a stable state: stable through two low ticks, insufficient with its alert at the third |
| BandwidthMonitor.TickSetsRate | src/erizo/node-erizo/rpcPublic.js:94-165 | The limit is the lesser of 50000 and a quarter of the average while it waits, the average when it begins to try, 1.3 times a risen average, and 1 when it gives up |
| BandwidthMonitor.InsufficientIsEntered | src/erizo/node-erizo/rpcPublic.js:96-106 | The only way out of the stable state is the start of the countdown, with its alert |
| BandwidthMonitor.GivesUpAfter95 | src/erizo/node-erizo/rpcPublic.js:107-168 | Whatever is reported, giving up comes no sooner than 95 ticks after that, and after exactly 95 if and only if the average never rose during a retry |
| BandwidthMonitor.QuietGivesUpAt95 | src/erizo/node-erizo/rpcPublic.js:107-168 | If the average never rises nor exceeds the upper threshold, it comes at the 95th tick |
| Candidates.SplitOneOf | src/liberizo/StringUtil.cpp:5-23 | The loop computes the specified pieces, for any delimiters and limit |
| Candidates.SplitExactly | src/liberizo/StringUtil.cpp:5-23 | For any string, delimiters and limit the pieces make up the string with single delimiters in between and hold none, except the last when the limit is reached; there are no more than the limit allows |
| Candidates.WordsAre | src/liberizo/SdpInfo.cpp:181-215 | The words of a line, one by one |
| Candidates.TypeReadBack | src/liberizo/SdpInfo.cpp:950-980 | Type names are read back, and any other name is a host |
| Candidates.AllPieces | src/liberizo/StringUtil.cpp:5-23 | Splitting undoes joining for words without delimiters |
| Candidates.PieceAt | src/liberizo/StringUtil.cpp:5-23 | Up to the first word with a delimiter all come out as they were, and that one does not |
| Candidates.NumbersReadBack | src/liberizo/SdpInfo.cpp:935-957 | Printed unsigned and signed numbers are read back, negative ones through the wrap-around |
| Candidates.SdpInfo.StringifyCandidate | src/liberizo/SdpInfo.cpp:181-215 | The line is the tag, a colon, and the words with single spaces |
| Candidates.SdpInfo.AddCandidate | src/liberizo/SdpInfo.cpp:175-179 | The candidate is appended and its line returned |
| Candidates.SdpInfo.ProcessCandidate | src/liberizo/SdpInfo.cpp:928-995 | What is appended is what the pieces say; other protocols and forms are refused and nothing changes |
| Candidates.PrintedReadBack | src/liberizo/SdpInfo.cpp:181-215 | Splitting and parsing the printed line gives the same fields if and only if the protocol is UDP and no string holds a space or a colon |
| Candidates.ColonNotReadBack | src/liberizo/SdpInfo.cpp:679-682 | So the line of a candidate whose address holds a colon, as every IPv6 address does, is not read back |
| ProcessPool.ErizoAgent.FillErizos | src/erizo/agent/index.js:116-123 | The recursion launches processes up to the prerun number or the maximum |
| ProcessPool.ErizoAgent.GetErizo | src/erizo/agent/index.js:125-136 | The first idle process, a new one, or the first busy one |
| ProcessPool.ErizoAgent.CreateErizoJS | src/erizo/agent/index.js:139-148 | The process becomes the last busy one and the pool is filled up |
| ProcessPool.ErizoAgent.OnClose | src/erizo/agent/index.js:88-98 | The process leaves its list and the pool is filled up |
| ProcessPool.ErizoAgent.DropErizoJS | src/erizo/agent/index.js:105-114 | The answer tells whether the process was known; only its entry among the children goes |
| ProcessPool.RunKeepsGood | src/erizo/agent/index.js:67-153 | Over any run with drops and exits the lists are disjoint, duplicate-free, hold every live process, and at most maxProcesses in all |
| ProcessPool.CloseKeepsGood | src/erizo/agent/index.js:88-98 | A closed process is in neither list, and the pool is full again |
| ProcessPool.FillsExactly | src/erizo/agent/index.js:116-123 | Just so many processes are launched that the idle ones reach the prerun number, or all the maximum, and they come last |
| ProcessPool.WithoutCuts | src/erizo/agent/index.js:88-98 | The others keep their order when one is taken out of a list |
| ProcessPool.CloseMovesTurn | src/erizo/agent/index.js:88-148 | The exit of a process brings the turn of the idle ones behind it one create nearer, and puts off that of the busy ones in front of it by one, for the process that is launched in its place |
| ProcessPool.RoundRobin | src/erizo/agent/index.js:116-148 | Without exits the i-th create returns the (i mod M)-th launched process, for any prerun number |
| ProcessPool.HandsOutLive | src/erizo/agent/index.js:105-136 | After any run a create hands out a live process if and only if it launches one, or the first process in turn is still among the children |
| ProcessPool.HandedOutAtTurn | src/erizo/agent/index.js:105-148 | A listed process is handed out by the create at its turn and by none before: after the idle ones in front of it, or after all that may still be launched or are idle and the busy ones in front of it; it is live then exactly if it is live now |
| ProcessPool.DroppedIsHandedOut | src/erizo/agent/index.js:105-136 | A dropped process that has not closed yet is handed out again, in a pool of one |

## Left out

Parts of the program:

- The RED form with two blocks, `fec_receiver_impl.cc` lines 94 to 164: it records a media
  length without the RTP header and leaves the SSRC of the second packet unset.
- `ShiftFitSubMask` and the overlap and bias modes of unequal protection: never selected.
  The literal mask tables: a table is a parameter with the properties that a table must have.
- `addNACK`, `addREMB`, receiver report statistics and their schedule in `RtcpProcessor`, and the
  other fields that `reset` clears: plain assignments and, for the delay, floating point.
- Audio, contexts, stream clocks and time stamps of written frames, frame sizes read for a
  log, and the early return without a video stream in `ExternalOutput`.
- SDP text other than candidate lines, codec negotiation, statistics, sockets, threads, foreign
  libraries, the browser client, Nuve, and the room and cloud controllers.
- Reference counts and freeing. `fec_packet_received_` is not kept: nothing reads it.

What the model simplifies:

- `std::list::sort` of a sorted list with one more element is insertion at its place;
  `std::lower_bound`, `std::set_intersection`, `find_first_of`, `strtoul`, and `indexOf` with
  `splice` are what their standards say, the first two with their loops.
- Capacity of the lists, of 64-bit byte counters and of 32-bit packet counters other than those
  named is taken as unbounded.
- Queue depths are real numbers. Bit rates of feedback calls are real numbers as well; their
  truncation to an integer at the language boundary is not modelled. The thresholds of the bandwidth
  monitor are parameters.
- Random process identifiers are the numbers of the launches. The two process limits are
  fixed, and the maximum is at least 1: with 0 the agent would hand out nothing and keep
  it in its list.
- FecGenerator.GenerateFEC: writes bit string and headers packet by packet, where the code makes two
  passes; it asks that no gap jumps over a mask byte and that the span is at most 48
  (outside of that the code leaves its contract), and that packets fit their buffers.
- FecEncoder.GenerateFecBitString: asks that no gap jumps over a mask byte; after such a gap the code
  shifts by a negative amount, which the language does not define.
- FecMachine.ForwardErrorCorrection.AttemptRecover: and `DecodeFEC` ask that what is recovered fits
  the packet buffers, because the code trusts the lengths it reads, and for lists in circular
  order. The specification functions and the results in `Peeling` are total.
- FecReceiver.FecReceiverImpl.AddReceivedRedPacket: single-block form only.
- FecReceiver.FecReceiverImpl.ProcessReceivedFec: asks for the same. The callback always succeeds,
  as those of the program do (`ExternalOutput.cpp` lines 103 to 107, `WebRtcConnection.cpp` lines
  239 to 243).
- FecReceiver.FecReceiverImpl.HandUp: the callback always succeeds, for the same reason.
- FecRepair.RunRecoversClosure: is about runs in which neither list overflows and no FEC packet counts
  as stale. In longer runs `FecRepair.RunWithin`, `FecOutcome.AttemptRecoversLeastSet` and the results
  of `FecRetention` hold.
- ProtectedRecording.QueueData: the pushes of the callback are made after the receiver is done with the
  packet; the two do not share state.
- PacketQueue.RunRefines: and the recording results take pushes inside a half window above what
  has been given out.
- PacketQueue.RtpPacketQueue.constructor: a maximum depth that is kept is not negative; otherwise the
  trim loop would run on an empty list.
- VideoRecorder.ExternalOutput.Write: asks for a readable payload and for room in the buffer of 200000
  octets, neither of which the code checks.
- Recording.SendDue: the configured depth is not negative; otherwise the loop would pop from an
  empty queue.
- Candidates.SdpInfo.ProcessCandidate: asks for as many pieces as the code reads without a check. The
  related address of a candidate that has none, which the code leaves unset, is empty.
- Remb.RembPacket.SetREMBBitRate: a rate above the limit would be shifted by 64, which is undefined.
- Remb.ReceivedIsFloor: exponents below 32; the language does not define a longer shift.
- BandwidthReport.RtcpData.OnRemb: the received rate is a parameter.
