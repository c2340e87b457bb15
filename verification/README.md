# Carriers, drive loop and small cores, verified

This project models the parts of the repository that move choreography frames between cores and
processes one poll at a time, the loop that drives a WASI guest, and three smaller loops, and proves what
they promise. Everything is Dafny 4.11; `dafny verify dfyconfig.toml` checks the whole project.

| files | component |
|---|---|
| `Wire`, `Runs` | bytes, words, frames, flows; guards over runs and the steps of whole calls |
| `SioCodec`, `SioDevice`, `SioCarrier`, `SioLosses`, `SioGuarantees`, `SioCuts`, `SioMixes`, `SioPolls`, `SioRounds`, `SioCalls`, `SioCollisions`, `SioRequeues`, `SioMisuse` | RP2350 word-stream carrier on the SIO FIFO |
| `Demux`, `Drains`, `Endpoints` | one-slot-per-role stash, the loop that polls over it, and the receiving endpoint, shared by both SIO carriers |
| `MailboxSlot`, `MailboxCarrier`, `MailboxLosses`, `MailboxGuarantees`, `MailboxPolls`, `MailboxRounds`, `MailboxCalls`, `MailboxCollisions`, `MailboxRequeues`, `MailboxLateRoles` | RP2040 one-slot mailbox carrier |
| `LaneQueue`, `QueueCarrier` | UNO Q lane-scoped ring queue and the carrier over it |
| `UartFraming` | UNO Q serial framing |
| `WasiDrive` | WASI guest drive loop and storage lease |
| `JsonText`, `LedScan`, `CoreLaunch` | JSON strings, LED scan, core-1 launch |

## How the carriers are modelled

Each carrier appears twice. As classes (`SioPolls`, `MailboxPolls`, `QueueCarrier`) whole polls update
fields and arrays in place and are proved against specification functions. As a machine of two cores
(`SioCarrier`, `MailboxCarrier`) every access to shared state is one step, the two cores' steps interleave
in any order, and the guarantees are proved for the end of every run. `SioRounds` and `MailboxRounds` tie
the two: a whole send or receive is a run of the machine, made of the call's own accesses, that ends in exactly
the state its specification function gives. `SioCalls` and `MailboxCalls` follow a whole receive while the
other core does anything at all. The methods of `QueueCarrier` say themselves which operation of the
whole-run model they are, for every lane.

In `SioCarrier` a status read and the push or pop it allows are separate steps. In `MailboxCarrier` each
field and each payload byte of the shared slot is written and read in a step of its own, so a torn read is
possible in the model and is ruled out by proof. The histories kept beside the state (what a send was asked
for and answered Ok, what went on the wire, what arrived, what was handed over, how many errors a receive
returned) only state the guarantees; no step looks at them.

Assumptions about the callers and the hardware:

- Memory is sequentially consistent; compiler fences and volatile accesses are plain steps.
- A core runs one poll at a time, and each call names an endpoint opened on that core.
- RP2350 carrier: an endpoint begins a frame on the FIFO only when no other endpoint of its core is in the
  middle of one, and no send is cancelled after some of its words are out. `KeepsFramesWhole` in `SioCarrier`
  states both; `SioCuts`, `SioMixes` and `SioMisuse` show what goes wrong without them. A self-send is
  acknowledged without delivering anything, as the source does, and is not counted as sent. Roles other than
  0, 1 and 2 have no core (the source panics).
- Mailbox carrier: the roles whose endpoints are opened on one core are not opened on the other, and are 0, 1
  or 2 (the source panics on any other; no proof about the machine needs this). There is
  no assumption about cancellation: it is shown to be harmless at any time.
- Both SIO carriers: none about which frame a send is polled again with, and roles may be registered at any time.
- UNO Q queue: one receiving endpoint for each role and lane.
- WASI drive loop: none. That the runtime's request and import agree is the condition of an equivalence, not
  an assumption.
- A receive whose FIFO or mailbox is empty returns; whether it returns pending or a deadline error makes
  no difference to the state.
- A frame is identified by all of its fields. The counters for `Copies` count equal frames together.

## Findings

- A frame can be answered Ok to its sender and then be dropped at the receiver, with an error only there.
  `AcknowledgedFrameIsDropped` and `UnknownRoleIsDropped` are runs in which it happens, on either SIO carrier:
  the slot of a role that does not poll holds one frame; and the mailbox carrier publishes a frame for any
  role, though roles above 2 have no slot (and no endpoint) and the core that takes such a frame turns it away
  with `Failed`. The exact conditions: a call fails if and only if some frame it takes ahead of its own has its
  slot missing, taken or claimed (`CallFailsExactlyOnCollision` on either carrier, whatever the other core
  does meanwhile); over a run a flow arrives whole if and only if no step completes one of its frames under that
  guard (`DeliveryIsInOrder`, `MailboxDelivery`).
- Both SIO carriers go on with the pending frame they remember and answer Ok for the frame they were called with,
  without comparing the two. If they differ, a frame is answered Ok that is never sent, and no error is
  returned (`AcknowledgedFrameIsNeverSent` of `SioMisuse` and of `MailboxLateRoles`). On the mailbox carrier this
  happens to callers that repeat every pending frame until it is answered: a frame that waits for the mailbox while
  its receiver is registered on the same core is answered through the stash, stays pending, and goes out in the
  place of the next one. Over every run what was answered Ok is what was sent, in order, if and only if no call
  finished another frame than the one it was called with (`AcknowledgedIsSent`, `AcknowledgedIsPublished`); that
  is so as long as no send finds another frame pending for the FIFO or the mailbox (`RepeatingIsHonest`).
- A cancel in the middle of a frame garbles the stream. The next frame comes through unharmed if and only if no
  word of the cut one was out (`CutIsHarmlessOnlyAtStart`). With the header out the receiver hands over the cut
  frame's header with the following words as payload (`CutFrameIsCorrupted`; `CancelSpoilsRun` is a run); with
  less out it may reject the mixed header instead (`CutHeader` says when).
- So can a second sender of the same core in the middle of a frame (`SecondSenderSpoilsFrame`,
  `SecondSenderSpoilsRun`). Here the rest of the first frame follows, and both frames come through unharmed if and
  only if the second one's words commute with it (`SecondSenderIsHarmless`, at any cut; `SomeMixesAreHarmless` has
  frames for which they do). More generally any stream of words is heard as a list of frames if and only if it
  spells them (`HeardExactly`).
- The UART parser drops a byte that does not continue the magic without trying it as the first byte of the
  magic: one stray `H` (0x48) before a frame loses that frame, any other stray byte does not (`StrayByte`, both
  directions).
- `requeue` on the UNO Q queue drops the frame without an error when the queue has filled up in between; the
  lane's order is kept if and only if there is room (`RequeueNeedsRoom`, over whole runs `LanesStayInOrder`;
  `RequeueDropsFrame` is such a run). Straight after the pop there always
  is (`RequeueRestoresLanes`), though the order between lanes may change.
- The queue does not carry the session: a frame is reported under the receiver's session, whatever the
  sender's was (`LanesDeliverInOrder`).
- The mailbox carrier puts a frame for a role on the sender's own core on the lane that role last registered
  (`LocalFrameKeepsItsLane`; `FrameChangesLane` is a run in which it arrives on another lane).
- The capacity branch of the RP2350 accumulator, the buffer-full branch of the UART parser, the error
  branches of the mailbox take, the clearing branch of the mailbox cancel and the missing-storage panic of
  the drive loop cannot be reached.
- A `\u` escape of a surrogate decodes to U+FFFD, so a surrogate pair (section 7 of RFC 8259) becomes two
  replacement characters (`SurrogatePairIsLost`; `UnicodeEscape` says exactly which escapes keep their
  meaning). The printer never writes one, so the round trip is not affected.

## Model

| member | source | states |
|---|---|---|
| SioGuarantees.DeliveryIsInOrder | examples/rp2w-firmware/src/lib.rs:820-1137 | over every interleaving of the two cores' status reads, pushes and pops, per (sender, receiver, lane): what a core was handed, what waits for it and what is in flight make up exactly what was sent, in order and without a gap, if and only if no step of the run completed a frame of the flow at an endpoint it is not for while its slot was missing or taken; what was sent is what poll_send answered Ok for, and the frame it is in the middle of, if no call answered for another frame than it sent |
| SioGuarantees.NoSilentLoss | examples/rp2w-firmware/src/lib.rs:946-1137 | every copy of a frame sent is delivered, in its stash slot, in flight, or dropped; the drops are as many as the errors returned, there is none unless a step of the run dropped a frame of that flow, no word ever fails to decode, and the words accumulated, queued and still to be pushed are exactly the words of the frames in flight; what was sent is what was answered Ok under the same condition |
| SioGuarantees.AcknowledgedIsSent | examples/rp2w-firmware/src/lib.rs:872-938 | every frame answered Ok is one frame begun on the FIFO and at most one is begun and not yet answered; over every run they are the same frames, in order, if and only if no call answered Ok for another frame than the one it finished |
| SioLosses.StepLoses | examples/rp2w-firmware/src/lib.rs:1097-1122 | a step loses a frame of a flow exactly when it completes one at an endpoint it is not for while its slot is missing or taken |
| SioLosses.RunLoses | examples/rp2w-firmware/src/lib.rs:1097-1122 | over every run: nothing more of a flow is lost if and only if no step is of that kind |
| SioLosses.StepSwaps | examples/rp2w-firmware/src/lib.rs:872-938 | a step keeps the answers in line with what was sent exactly when it does not answer Ok for another frame than the one it finished |
| SioLosses.RunSwaps | examples/rp2w-firmware/src/lib.rs:872-938 | over every run: what was answered Ok is what was sent, in order, if and only if no step is of that kind |
| SioLosses.RepeatingIsHonest | examples/rp2w-firmware/src/lib.rs:872-938 | no step is of that kind as long as no send finds another frame pending than the one it is called with |
| SioCollisions.AcknowledgedFrameIsDropped | examples/rp2w-firmware/src/lib.rs:363-380 | a concrete run: two frames from role 1 to role 2 are both answered Ok, role 0 polls, and the second frame is lost with one error |
| SioCollisions.DrainIsFrames | examples/rp2w-firmware/src/lib.rs:1022-1136 | whatever part of a frame was accumulated before and follows at the end, the pop loop takes the frames whose words are there one after the other |
| SioCollisions.PollFailsExactlyOnCollision | examples/rp2w-firmware/src/lib.rs:1097-1122 | for any accumulated and queued words and a peer that is quiet: a whole poll answers an error, always the capacity error, if and only if, before the first frame for its own role and lane, there is a frame whose slot is missing, occupied, or claimed by an earlier frame |
| SioCollisions.SlotsOfTheCarrier | examples/rp2w-firmware/src/lib.rs:363-380 | a frame is kept exactly if its role is below 16 and its slot free; otherwise it is turned away with the capacity error and nothing changes |
| SioCalls.CallFailsExactlyOnCollision | examples/rp2w-firmware/src/lib.rs:946-1137 | the same for every whole call in every run, whatever the other core does during it: it answers an error if and only if it reaches the FIFO and one of the frames it takes there collides |
| SioCalls.CallIsDrain | examples/rp2w-firmware/src/lib.rs:1022-1136 | such a call takes the next frames of the peer's wire and ends with the stash, the deliveries and the error of the loop on whole frames |
| Drains.DrainFails | examples/rp2w-firmware/src/lib.rs:1097-1122 | for either carrier's slots: taking frames one after the other ends with an error if and only if one collides, said of the frames and the stash at the start |
| Drains.DrainTakes | examples/rp2w-firmware/src/lib.rs:1097-1136 | the frames ahead of the first that is for the endpoint or collides are each put into their own slot and no other slot changes; that frame is handed over, or turned away with the error that says why |
| SioGuarantees.NoSilentLocalLoss | examples/rp2w-firmware/src/lib.rs:848-869 | every copy of a frame the stash accepted from a sender on the same core is delivered or waits in its slot; none is ever lost |
| SioGuarantees.CarrierIsSafe | examples/rp2w-firmware/src/lib.rs:899-912 | the carrier never raises WOF or ROE, no core is ever unable to take its next step, and what an endpoint can redeliver is a frame it was handed before, on its own role and lane |
| SioCarrier.StepInv | examples/rp2w-firmware/src/lib.rs:820-1137 | every step of either core keeps the whole invariant: stream equation in both directions, demultiplexer order and accounting, validity of endpoints, guards that still hold |
| SioCarrier.RunInv | examples/rp2w-firmware/src/lib.rs:820-1137 | the invariant holds at the end of every run |
| SioCarrier.InitInv | examples/rp2w-firmware/src/lib.rs:800-818 | freshly opened endpoints on a reset block satisfy the invariant |
| SioCarrier.StreamPop | examples/rp2w-firmware/src/lib.rs:260-304 | while the words in flight are those of the frames in flight, the next word either extends the frame at the head or completes exactly that frame; it is never rejected |
| SioCarrier.TakeWordInv | examples/rp2w-firmware/src/lib.rs:1091-1136 | acting on a popped word (accumulate, stage, stash, refuse) keeps the receiving side of the invariant |
| SioCuts.CutIsHarmlessOnlyAtStart | examples/rp2w-firmware/src/lib.rs:941-944 | for all frames and every cut: after k words of a cancelled frame the next frame is received as sent, and nothing else, if and only if k is 0 |
| SioCuts.CutFrameIsCorrupted | examples/rp2w-firmware/src/lib.rs:941-944 | once the header is out, for every cut and whatever words come next: the receiver hands over the cut frame with those words in place of the missing payload |
| SioCuts.CutHeader | examples/rp2w-firmware/src/lib.rs:274-287 | with one to three words out: the header is rejected if and only if a single word was out and the next session is no good meta word |
| SioMixes.HeardExactly | examples/rp2w-firmware/src/lib.rs:260-316 | for every stream of words and every list of frames: the accumulator answers with exactly these frames and nothing else if and only if the stream spells them, up to the bits a decoder ignores |
| SioMixes.SpellsIsDecode | examples/rp2w-firmware/src/lib.rs:293-315 | a complete word list decodes to a frame if and only if each of its words is the frame's, up to the ignored bits |
| SioMixes.SecondSenderIsHarmless | examples/rp2w-firmware/src/lib.rs:899-912 | for all frames and every cut: when a second sender of the core puts its frame in the middle of another one, both are heard as sent if and only if that frame commutes with the words that were still to come; the order in which they are heard is fixed once the meta word is out |
| SioMixes.SomeMixesAreHarmless | examples/rp2w-firmware/src/lib.rs:899-912 | frames for which such a mix is harmless |
| SioMixes.SecondSenderSpoilsFrame | examples/rp2w-firmware/src/lib.rs:899-912 | frames for which it is not: the first sender's frame is heard with the magic word as its payload |
| SioMisuse.SecondSenderSpoilsRun | examples/rp2w-firmware/src/lib.rs:899-912 | a run in which role 2 sends while role 0 is mid-frame: it is answered Ok and role 1 receives a frame nobody sent |
| SioMisuse.CancelSpoilsRun | examples/rp2w-firmware/src/lib.rs:941-944 | a run in which a send is cancelled mid-frame and the next one is answered Ok, and role 1 receives a frame nobody sent |
| SioMisuse.AcknowledgedFrameIsNeverSent | examples/rp2w-firmware/src/lib.rs:872-938 | a run in which poll_send, called with another frame while one is half out, finishes that one and answers Ok for the other, which is never sent |
| SioCodec.StreamRoundTrip | examples/rp2w-firmware/src/lib.rs:260-316 | for every list of frames: fed word by word to an empty accumulator, their words give each frame at its last word, silence everywhere else, and an empty accumulator at the end |
| SioCodec.WordsRoundTrip | examples/rp2w-firmware/src/lib.rs:108-123 | decoding the words of a frame gives the frame back |
| SioCodec.PushNextWord | examples/rp2w-firmware/src/lib.rs:274-304 | each word of a frame but the last is kept silently, the last one releases the frame and empties the accumulator |
| SioCodec.DecodeThenEncode | examples/rp2w-firmware/src/lib.rs:293-315 | on arbitrary well-shaped words: the decoded frame encodes back to the words received if and only if the bits the decoder ignores (upper lane bytes, padding) were zero |
| SioCodec.MetaRoundTrip | examples/rp2w-firmware/src/lib.rs:520-533 | the meta word gives back sender, peer, label and length |
| SioCodec.MetaLayout | examples/rp2w-firmware/src/lib.rs:520-533 | length, sender, peer and label are bytes 0 to 3 of the meta word |
| SioCodec.PayloadWordsFit | examples/rp2w-firmware/src/lib.rs:535-537 | a payload takes as many words as hold its bytes and no more |
| SioCodec.PayloadRoundTrip | examples/rp2w-firmware/src/lib.rs:539-561 | payload byte i comes back from byte i mod 4 of payload word i / 4 |
| SioCodec.Words | examples/rp2w-firmware/src/lib.rs:108-123 | a legal frame takes at least 4 and at most 36 words |
| SioCodec.Push | examples/rp2w-firmware/src/lib.rs:260-304 | on any word at all: the accumulator stays a proper prefix of some frame and below 36 words, an error leaves it empty, a completed frame is legal and leaves it empty |
| SioCodec.PushErrors | examples/rp2w-firmware/src/lib.rs:260-290 | which words are refused and with which error: a first word other than the magic, a length byte above 128, or else equal roles |
| SioCodec.PackPayloadWord | examples/rp2w-firmware/src/lib.rs:539-550 | the loop packs four payload bytes, least significant first, zeros beyond the end |
| SioCodec.UnpackPayloadWord | examples/rp2w-firmware/src/lib.rs:552-561 | the loop writes the bytes of the word that lie inside the payload and touches no other byte |
| SioCodec.SioRxAccumulator.constructor | examples/rp2w-firmware/src/lib.rs:245-249 | an empty accumulator is valid |
| SioCodec.SioRxAccumulator.Reset | examples/rp2w-firmware/src/lib.rs:251-254 | a reset leaves a valid, empty accumulator |
| SioCodec.SioRxAccumulator.PushWord | examples/rp2w-firmware/src/lib.rs:260-304 | the in-place accumulator does what Push says on every word; its capacity guard at entry cannot be reached and no index is out of range |
| SioCodec.SioRxAccumulator.Decode | examples/rp2w-firmware/src/lib.rs:293-315 | the unpacking loop reads out exactly the frame that the words spell |
| SioDevice.Mailbox.constructor | qemu/overlay/hw/misc/rp2040_sio.c:227-235 | a new ring is empty |
| SioDevice.Mailbox.Push | qemu/overlay/hw/misc/rp2040_sio.c:47-53 | for every head and length the ring refines appending to a sequence of at most 8 words |
| SioDevice.Mailbox.Pop | qemu/overlay/hw/misc/rp2040_sio.c:55-62 | for every head and length the ring refines removing the oldest word |
| SioDevice.SioBlock.constructor | qemu/overlay/hw/misc/rp2040_sio.c:227-235 | reset: both FIFOs empty, no sticky flag |
| SioDevice.SioBlock.FifoStatus | qemu/overlay/hw/misc/rp2040_sio.c:82-101 | each status bit says exactly what it stands for, for the asking core |
| SioDevice.SioBlock.Read | qemu/overlay/hw/misc/rp2040_sio.c:122-156 | a status read shows all four bits and changes nothing; a data read takes the oldest word from the peer, or from an empty FIFO returns 0, leaves both FIFOs and raises ROE of the reading core only; the core number, the spinlock status and unused offsets read as the source has them |
| SioDevice.SioBlock.Write | qemu/overlay/hw/misc/rp2040_sio.c:158-215 | a status write lowers exactly those flags of the writing core whose bit is set and leaves the peer's flags and both FIFOs; a data write appends the word, or into a full FIFO leaves it and raises WOF of the writing core only; any other offset changes nothing |
| SioDevice.SioBlock.TryPush | examples/rp2w-firmware/src/lib.rs:454-462 | succeeds exactly when there is room, and otherwise leaves the block untouched |
| SioDevice.SioBlock.TryPop | examples/rp2w-firmware/src/lib.rs:464-471 | returns a word exactly when there is one, and otherwise leaves the block untouched |
| SioDevice.SafeStep | examples/rp2w-firmware/src/lib.rs:453-471 | with the status read and the data access as separate steps of two interleaved cores, a check stays true until the access it allows |
| SioDevice.GuardedAccessIsStable | examples/rp2w-firmware/src/lib.rs:453-471 | from reset and over every interleaving of guarded accesses: no WOF, no ROE, at most 8 words each way, and what a core has read is a prefix of what its peer has written |
| Demux.WrongLanePollChangesNothing | examples/baker-firmware/src/lib.rs:1103-1129 | putting back a stashed frame of another lane never fails and leaves the stash as it was; a frame is handed over exactly when it is for the polled role and lane |
| Demux.ArriveKeepsOrder | examples/baker-firmware/src/lib.rs:1205-1244 | routing a received frame keeps slot r for frames of role r, every flow in order and every frame accounted for, provided no frame of the polled endpoint waits |
| Demux.CollectKeepsOrder | examples/baker-firmware/src/lib.rs:1103-1129 | taking from the stash keeps order and accounting, and never drops a frame |
| Demux.LocalSendKeepsOrder | examples/baker-firmware/src/lib.rs:948-971 | stashing a frame of a sender on the same core keeps order and accounting |
| Demux.DeliveredIsPrefix | examples/baker-firmware/src/lib.rs:1103-1244 | what was delivered is a prefix of what was kept; FlowComplete and ArriveLoses say when that is everything |
| Demux.InboxGuarantee | examples/baker-firmware/src/lib.rs:453-486 | per flow delivery is a prefix of what was not dropped, every copy is delivered, waiting or dropped, and a frame from the same core is never dropped once accepted |
| Demux.RouteRefuses | examples/baker-firmware/src/lib.rs:469-486 | a received frame is turned away if and only if it is not for the polling endpoint and its slot is missing or taken, with the error that says which |
| Demux.FlowComplete | examples/baker-firmware/src/lib.rs:1103-1244 | delivered and waiting frames of a flow are all that arrived, in order, if and only if none of the flow was turned away |
| Demux.ArriveLoses | examples/baker-firmware/src/lib.rs:1205-1230 | routing a frame adds to a flow's losses exactly when the guard turns away a frame of that flow |
| Demux.InboxStartRecv | examples/baker-firmware/src/lib.rs:1074-1129 | the head of a poll (redeliver, else stash, else wire) keeps the inbox and reaches the wire only when no frame of the endpoint waits |
| Endpoints.RoleStash.constructor | examples/rp2w-firmware/src/lib.rs:321-325 | an empty stash of the carrier's size |
| Endpoints.RoleStash.Take | examples/rp2w-firmware/src/lib.rs:351-361 | empties the slot of the role and no other |
| Endpoints.RoleStash.Put | examples/rp2w-firmware/src/lib.rs:363-380 | fills the free slot of the frame's peer; a missing slot and a taken slot are the carrier's two different errors |
| Endpoints.RoleStash.Poll | examples/rp2w-firmware/src/lib.rs:995-1008 | the stash part of a poll: hands over, puts back or finds nothing |
| Endpoints.SioRx.constructor | examples/rp2w-firmware/src/lib.rs:155-178 | nothing staged, nothing to redeliver |
| Endpoints.SioRx.Stage | examples/rp2w-firmware/src/lib.rs:382-390 | stages the frame and marks it delivered |
| Endpoints.SioRx.Restart | examples/rp2w-firmware/src/lib.rs:968-994 | redelivers exactly a staged frame that was requeued or not yet handed over, otherwise forgets the last one |
| Endpoints.SioRx.Requeue | examples/rp2w-firmware/src/lib.rs:1139-1156 | keeps the staged frame and marks it to be handed over again; with nothing staged there is nothing to mark |
| SioRequeues.GivenBackIsHandedOver | examples/rp2w-firmware/src/lib.rs:968-986 | whatever the stash, the accumulator and the FIFO hold: the poll after a requeue answers exactly the frame given back, under the endpoint's role, and leaves all three alone |
| SioRequeues.HandedOverIsForgotten | examples/rp2w-firmware/src/lib.rs:987-995 | a frame handed over and not given back is forgotten: the next poll goes on as if the endpoint had none |
| SioRequeues.RequeueThenRecv | examples/rp2w-firmware/src/lib.rs:1139-1156 | in every run of the two cores: requeue then poll hands the frame over once more at once and changes nothing else in the machine, the poll after that begins as if there were no frame, and a requeue with nothing staged changes nothing |
| SioRequeues.GivenBackUntilPolled | examples/rp2w-firmware/src/lib.rs:968-986 | over every run without a poll of the endpoint, whatever else either core does, a frame given back stays so, and the poll then hands it over |
| SioRequeues.NothingTwice | examples/rp2w-firmware/src/lib.rs:968-995 | over every run without a requeue of the endpoint no poll hands a frame over a second time |
| MailboxRequeues.GivenBackIsHandedOver | examples/baker-firmware/src/lib.rs:1074-1090 | whatever the stash and the mailbox hold: the poll after a requeue answers exactly the frame given back, under the endpoint's role, and leaves both alone |
| MailboxRequeues.HandedOverIsForgotten | examples/baker-firmware/src/lib.rs:1091-1102 | a frame handed over and not given back is forgotten: the next poll goes on as if the endpoint had none |
| MailboxRequeues.RequeueThenRecv | examples/baker-firmware/src/lib.rs:1247-1264 | the same over every run of the mailbox machine, where the poll also registers the endpoint's lane |
| MailboxRequeues.GivenBackUntilPolled | examples/baker-firmware/src/lib.rs:1074-1090 | over every run without a poll of the endpoint a frame given back stays so, and the poll then hands it over |
| MailboxRequeues.NothingTwice | examples/baker-firmware/src/lib.rs:1074-1102 | over every run without a requeue of the endpoint no poll hands a frame over a second time |
| SioPolls.SioTransport.constructor | examples/rp2w-firmware/src/lib.rs:319-341 | a core's transport starts with an empty accumulator and stash |
| SioPolls.SioTransport.PollSend | examples/rp2w-firmware/src/lib.rs:820-939 | all branches of a whole poll: self-send, oversized frame, role on this core, and progress on the FIFO as far as there is room; each call answered Ok is counted once |
| SioPolls.SioTransport.PushPending | examples/rp2w-firmware/src/lib.rs:899-938 | the push loop puts out the frame's words in order until it is done or the FIFO is full, and remembers how far it got |
| SioPolls.SioTransport.PushRound | examples/rp2w-firmware/src/lib.rs:900-912 | one round of the push loop is one unfolding of the burst |
| SioPolls.SioTransport.SendLocal | examples/rp2w-firmware/src/lib.rs:848-870 | the stash branch: accepted exactly when the stash accepts, otherwise its error |
| SioPolls.SioTransport.PushWordOf | examples/rp2w-firmware/src/lib.rs:906-911 | the guarded push of one word |
| SioPolls.SioTransport.CancelSend | examples/rp2w-firmware/src/lib.rs:941-944 | the pending frame is forgotten; words already pushed stay |
| SioPolls.SioTransport.PollRecv | examples/rp2w-firmware/src/lib.rs:946-1137 | all branches of a whole poll: redelivery, stash, and draining the FIFO |
| SioPolls.SioTransport.DrainFifo | examples/rp2w-firmware/src/lib.rs:1022-1136 | the pop loop ends with a frame for the endpoint, an error, or an empty FIFO, and terminates |
| SioPolls.SioTransport.DrainStep | examples/rp2w-firmware/src/lib.rs:1091-1136 | one round of the pop loop is one unfolding of the drain |
| SioPolls.SioTransport.Dispose | examples/rp2w-firmware/src/lib.rs:1097-1136 | a complete frame is handed over, stashed or refused as its role, lane and slot say |
| SioPolls.SioTx.CountSent | examples/rp2w-firmware/src/lib.rs:937-938 | the sent counter saturates at 65535 |
| SioRounds.BurstIsARun | examples/rp2w-firmware/src/lib.rs:899-938 | a whole push loop is a run of the interleaved carrier's sender steps, with the same FIFO, progress and result; the frame is on the wire once a word is out and acknowledged once all are |
| SioRounds.DrainIsARun | examples/rp2w-firmware/src/lib.rs:1022-1136 | a whole pop loop is a run of the interleaved carrier's receiver steps, with the same FIFO, accumulator, stash and endpoint |
| SioRounds.SendIsARun | examples/rp2w-firmware/src/lib.rs:872-938 | a whole send of a frame that goes over the FIFO is a run of the interleaved carrier made of the call's own accesses, with the result of the whole-poll specification; when all words of the pending frame are out it logs the frame it was called with as acknowledged |
| SioRounds.SendElsewhere | examples/rp2w-firmware/src/lib.rs:830-869 | on the machine, a self-send and an oversized frame change nothing, and a frame for a role on the sender's core goes to its free slot or is refused |
| SioRounds.RecvIsARun | examples/rp2w-firmware/src/lib.rs:946-1137 | a whole receive, whatever branch it takes, is a run of the interleaved carrier made of the call's own accesses, with the result of the whole-poll specification |
| SioRounds.DrainPart | examples/rp2w-firmware/src/lib.rs:1022-1136 | draining part of a frame accumulates it, draining the rest delivers it |
| SioRounds.DeliveryBound | examples/rp2w-firmware/src/lib.rs:899-938 | alternating whole sends and receives delivers an n-word frame unchanged in exactly ceil(n / D) rounds for FIFO depth D, at most 5 for the real depth 8 |
| SioRounds.DeliveryRun | examples/rp2w-firmware/src/lib.rs:820-1137 | the same on the interleaved machine: a run of exactly ceil(n / 8) rounds of whole calls ends with the frame handed over, the send answered Ok and nothing left behind |
| MailboxSlot.SioMailboxSlot.constructor | examples/baker-firmware/src/lib.rs:253-265 | an empty slot |
| MailboxSlot.SioMailboxSlot.Publish | examples/baker-firmware/src/lib.rs:286-320 | publishes only into an empty slot, which then shows exactly the frame; a full slot stays as it is |
| MailboxSlot.SioMailboxSlot.Clear | examples/baker-firmware/src/lib.rs:322-329 | lowers the flag and nothing else |
| MailboxSlot.SioMailboxSlot.Take | examples/baker-firmware/src/lib.rs:331-373 | frees the slot; nothing if it was empty, one error for a length above 128, the other for equal roles, else exactly the fields it shows |
| MailboxSlot.FillStep | examples/baker-firmware/src/lib.rs:300-314 | each single field write extends what the slot shows and leaves the flag alone |
| MailboxSlot.CopyStep | examples/baker-firmware/src/lib.rs:340-368 | each single field read of a slot that shows a frame copies that frame's field |
| MailboxSlot.TakePublished | examples/baker-firmware/src/lib.rs:331-373 | a take on a slot that shows a frame returns exactly that frame |
| MailboxCarrier.StepInv | examples/baker-firmware/src/lib.rs:286-373 | every single-field step, poll, cancel or requeue of either core keeps the invariant |
| MailboxCarrier.RunInv | examples/baker-firmware/src/lib.rs:286-373 | the invariant holds at the end of every run |
| MailboxGuarantees.NeverTorn | examples/baker-firmware/src/lib.rs:286-373 | with every field access a step of its own: at most one published frame is untaken, the flag is up exactly then, the slot shows all of it, a finished copy is exactly it, and the error branches of the take are never entered |
| MailboxGuarantees.CancelErasesNothing | examples/baker-firmware/src/lib.rs:1038-1046 | whenever a cancel can run, the pending frame is unpublished; it is forgotten, and both slots and everything else stay as they are |
| MailboxGuarantees.MailboxDelivery | examples/baker-firmware/src/lib.rs:1048-1245 | per (sender, receiver, lane), under any schedule and any cancellation: what was handed over, waits and is in the mailbox make up exactly what was published, or stashed by a sender of the core, without a gap, if and only if no step of the run finished taking a frame of the flow for an endpoint it is not for while its slot was missing or taken; what was published is what poll_send answered Ok for, and one frame not yet answered, if no call answered for another frame than it published |
| MailboxGuarantees.MailboxLosesNothingSilently | examples/baker-firmware/src/lib.rs:1130-1230 | every copy of a sent frame is delivered, stashed, in the mailbox or dropped, each drop with one error; one sent on its own core is never dropped; what was sent is what was answered Ok under the same condition |
| MailboxGuarantees.AcknowledgedIsPublished | examples/baker-firmware/src/lib.rs:973-1036 | every frame answered Ok is one frame published and at most one is published and not yet answered; over every run they are the same frames, in order, if and only if no call answered Ok for another frame than the one it published |
| MailboxGuarantees.LocalFrameKeepsItsLane | examples/baker-firmware/src/lib.rs:948-956 | a frame for a role on the sender's core arrives on the lane it was sent on if and only if that is the lane the role last registered |
| MailboxLosses.StepLoses | examples/baker-firmware/src/lib.rs:1205-1230 | a step loses a frame of a flow exactly when it finishes taking one for an endpoint it is not for while its slot is missing or taken |
| MailboxLosses.RunLoses | examples/baker-firmware/src/lib.rs:1205-1230 | over every run: nothing more of a flow is lost if and only if no step is of that kind |
| MailboxLosses.StepSwaps | examples/baker-firmware/src/lib.rs:973-1036 | a step keeps the answers in line with what was published exactly when it does not answer Ok for another frame than the one it published |
| MailboxLosses.RunSwaps | examples/baker-firmware/src/lib.rs:973-1036 | over every run: what was answered Ok is what was published, in order, if and only if no step is of that kind |
| MailboxLosses.RepeatingIsHonest | examples/baker-firmware/src/lib.rs:973-1036 | no step is of that kind as long as no send to the mailbox finds another frame pending than the one it is called with |
| MailboxLateRoles.AcknowledgedFrameIsNeverSent | examples/baker-firmware/src/lib.rs:948-1036 | a run in which every caller repeats its pending frame until it is answered, and a frame is answered Ok that is never published, with no error: the pending frame was answered through the stash, as its role was registered meanwhile, and the next call sends it out instead |
| MailboxLateRoles.FrameChangesLane | examples/baker-firmware/src/lib.rs:948-956 | a run in which a frame is stashed on the registered lane of its receiver instead of the one it was sent on, and handed over there |
| MailboxCollisions.PollFailsExactlyOnRefusal | examples/baker-firmware/src/lib.rs:1130-1230 | a whole poll answers an error if and only if it reaches the mailbox and finds a malformed frame, or one for another endpoint whose slot is missing (Failed) or taken (Capacity) |
| MailboxCalls.CallFailsExactlyOnCollision | examples/baker-firmware/src/lib.rs:1048-1245 | for every whole call in every run, whatever the other core does during it: it answers an error if and only if it reaches the mailbox and one of the frames it takes there collides |
| MailboxCalls.CallIsDrain | examples/baker-firmware/src/lib.rs:1130-1244 | such a call takes the next frames published and ends with the stash, the deliveries and the error of the loop on whole frames |
| MailboxCollisions.UnknownRoleIsDropped | examples/baker-firmware/src/lib.rs:469-475 | a concrete run for every role above 2: the frame is published, answered Ok and then lost with one error |
| MailboxCollisions.AcknowledgedFrameIsDropped | examples/baker-firmware/src/lib.rs:476-479 | a concrete run: of two frames answered Ok for a role that does not poll, the second is lost with one error |
| MailboxRounds.PublishIsARun | examples/baker-firmware/src/lib.rs:286-320 | a whole publish is a run of single-field steps that ends with the flag up and the slot showing exactly the frame, or with nothing changed when the slot was taken |
| MailboxRounds.TakeIsARun | examples/baker-firmware/src/lib.rs:331-373 | on any memory contents at all, a whole take is a run of single-field steps with the result of the whole-take specification, error branches included |
| MailboxRounds.SendIsARun | examples/baker-firmware/src/lib.rs:906-1036 | a whole send through the mailbox is a run of the call's own single-field steps; when the mailbox was free it publishes the pending frame and logs the frame it was called with as acknowledged |
| MailboxRounds.SendElsewhere | examples/baker-firmware/src/lib.rs:925-971 | on the machine, a self-send and an oversized frame register the sender's lane and change nothing else, and a frame for a role on the sender's core goes to its free slot, on that role's lane, or is refused |
| MailboxRounds.LoopIsARun | examples/baker-firmware/src/lib.rs:1130-1244 | the mailbox loop is a run: it takes a frame, and looks once more if it stashed it |
| MailboxRounds.RecvIsARun | examples/baker-firmware/src/lib.rs:1048-1245 | a whole receive, whatever branch it takes, is a run of the call's own single-field steps with the result of the whole-poll specification |
| MailboxPolls.MailboxTransport.constructor | examples/baker-firmware/src/lib.rs:232-238 | two empty mailboxes, an empty stash, no role registered |
| MailboxPolls.MailboxTransport.PollSend | examples/baker-firmware/src/lib.rs:906-1036 | all branches of a whole poll, including the lane a frame gets when its receiver lives on the same core; each call answered Ok is counted once |
| MailboxPolls.MailboxTransport.CancelSend | examples/baker-firmware/src/lib.rs:1038-1046 | drops the pending frame; the branch that would clear a published frame cannot be reached |
| MailboxPolls.MailboxTransport.PollRecv | examples/baker-firmware/src/lib.rs:1048-1245 | all branches of a whole poll when the peer is quiet |
| MailboxPolls.MailboxTransport.TakeAndDispose | examples/baker-firmware/src/lib.rs:1130-1244 | the mailbox loop stages, stashes or refuses what it takes |
| MailboxPolls.MailboxTx.CountSent | examples/baker-firmware/src/lib.rs:1034-1035 | the sent counter saturates |
| LaneQueue.PopTakesHeadOfLane | examples/uno-q-heterogeneous/src/lib.rs:3095-3123 | a pop takes the first frame of its lane, leaves every other lane's sequence alone, and finds nothing exactly when the lane is empty |
| LaneQueue.RequeueRestoresLanes | examples/uno-q-heterogeneous/src/lib.rs:3077-3093 | a frame put straight back always fits and restores every lane; it restores the whole queue if and only if it had been at the head |
| LaneQueue.ProofQueue.constructor | examples/uno-q-heterogeneous/src/lib.rs:3049-3053 | an empty ring |
| LaneQueue.ProofQueue.PushBack | examples/uno-q-heterogeneous/src/lib.rs:3055-3075 | for every head, length and wrap position the ring refines appending; a full ring or an oversized frame is refused unchanged |
| LaneQueue.ProofQueue.PushFront | examples/uno-q-heterogeneous/src/lib.rs:3077-3093 | the ring refines prepending, and silently does nothing when there is no room |
| LaneQueue.ProofQueue.PopFront | examples/uno-q-heterogeneous/src/lib.rs:3095-3123 | the in-place removal returns the first frame of the lane and removes only it; slots outside the ring's window stay empty |
| LaneQueue.ProofQueue.Find | examples/uno-q-heterogeneous/src/lib.rs:3099-3107 | the search loop finds the first frame of the lane |
| LaneQueue.ProofQueue.Shift | examples/uno-q-heterogeneous/src/lib.rs:3111-3116 | the shift loop moves every later frame one slot towards the head, across the wrap point |
| LaneQueue.ProofQueue.CloseGap | examples/uno-q-heterogeneous/src/lib.rs:3111-3121 | shift, clear and shrink remove exactly the frame at the offset and keep the unused slots empty |
| QueueCarrier.ProofCarrier.PollSend | examples/uno-q-heterogeneous/src/lib.rs:3981-4022 | accepted exactly under the source's five conditions; only the receiver's queue changes, and for every lane as a send of the whole-run model |
| QueueCarrier.ProofCarrier.PollRecv | examples/uno-q-heterogeneous/src/lib.rs:4028-4074 | pops the endpoint's lane of its own role's queue; no other queue changes; for its lane and for every other it is the receive of the whole-run model |
| QueueCarrier.ProofCarrier.Requeue | examples/uno-q-heterogeneous/src/lib.rs:4076-4095 | gives the held frame back in front and forgets it, so that a second call changes nothing; for its lane and for every other it is the give-back of the whole-run model |
| QueueCarrier.ProofRx.constructor | examples/uno-q-heterogeneous/src/lib.rs:3968-3978 | nothing held |
| QueueCarrier.LanesStayInOrder | examples/uno-q-heterogeneous/src/lib.rs:3981-4095 | over every run of sends, receives and give-backs on all lanes: received and queued frames of a lane are exactly those sent on it, in order, if and only if its endpoint never gave a frame back while the queue was full |
| QueueCarrier.LanesDeliverInOrder | examples/uno-q-heterogeneous/src/lib.rs:3981-4095 | the same from an empty queue: what was received is then a prefix of what was sent; and it is reported under its sender's session if and only if those sends were of the receiver's session |
| QueueCarrier.RequeueNeedsRoom | examples/uno-q-heterogeneous/src/lib.rs:3077-3080 | giving a frame back keeps the lane's order if and only if the queue has room; otherwise the frame is dropped without an error |
| QueueCarrier.ApplyMisses | examples/uno-q-heterogeneous/src/lib.rs:3077-3080 | a give-back to a full queue leaves one frame of the lane missing for good; no other step ever changes how many are missing |
| QueueCarrier.RequeueDropsFrame | examples/uno-q-heterogeneous/src/lib.rs:3077-3080 | the concrete run from the empty queue: send, receive, 24 sends, give back, and the first frame is nowhere |
| UartFraming.UartRoundTrip | examples/uno-q-heterogeneous/src/lib.rs:3187-3274 | for every list of frames: their encodings, parsed byte by byte from an empty parser, give exactly that list and leave the parser empty |
| UartFraming.CorruptionIsContained | examples/uno-q-heterogeneous/src/lib.rs:3209-3219 | changing any one byte of an encoded frame other than the magic and the length byte drops that frame and nothing else |
| UartFraming.StrayByte | examples/uno-q-heterogeneous/src/lib.rs:3188-3191 | one stray byte in front of a stream is harmless if and only if it is not the first magic byte |
| UartFraming.FoldUpdate | examples/uno-q-heterogeneous/src/lib.rs:3242-3248 | replacing one byte moves the checksum by exactly the difference of the two bytes |
| UartFraming.ParseShaped | examples/uno-q-heterogeneous/src/lib.rs:3187-3239 | frame-shaped bytes are consumed whole and give a frame if and only if their checksum is right |
| UartFraming.ParseLength | examples/uno-q-heterogeneous/src/lib.rs:3187-3239 | the frames produced never account for more bytes than were received |
| UartFraming.EncodeIsShaped | examples/uno-q-heterogeneous/src/lib.rs:3250-3274 | an encoding has the shape and checksum the parser asks for, and decodes to its frame |
| UartFraming.EncodedLayout | examples/uno-q-heterogeneous/src/lib.rs:3250-3274 | where magic, session, lane, source, peer, label, length, payload and checksum lie in an encoding |
| UartFraming.Push | examples/uno-q-heterogeneous/src/lib.rs:3187-3239 | on any byte: the parser keeps fewer than 142 bytes, and completing a frame empties it |
| UartFraming.Checksum | examples/uno-q-heterogeneous/src/lib.rs:3242-3248 | the loop folds all bytes into the start value |
| UartFraming.FoldStep | examples/uno-q-heterogeneous/src/lib.rs:3242-3248 | the checksum starts from 0xa7 and each byte is xored in |
| UartFraming.EncodeInto | examples/uno-q-heterogeneous/src/lib.rs:3250-3274 | writes the encoding and returns its length exactly when the payload fits, else leaves the buffer alone |
| UartFraming.UartFrameParser.constructor | examples/uno-q-heterogeneous/src/lib.rs:3180-3185 | an empty parser |
| UartFraming.UartFrameParser.PushByte | examples/uno-q-heterogeneous/src/lib.rs:3187-3198 | the in-place parser does what Push says on every byte; its buffer-full branch cannot be reached |
| UartFraming.UartFrameParser.SettleBuffer | examples/uno-q-heterogeneous/src/lib.rs:3200-3219 | keeps, completes or drops what the buffer holds |
| UartFraming.UartFrameParser.Finish | examples/uno-q-heterogeneous/src/lib.rs:3214-3238 | a complete buffer gives the frame it spells if and only if the checksum matches |
| WasiDrive.ExchangesAreStrict | src/appkit/internal.rs:1966-2025 | for every guest and endpoint, over the engine's whole life: the endpoint sees pairs of a request and the completion of the same boundary step, the last possibly cut short by a failure; request and reply messages match if and only if the runtime's request and import agree in every exchange that got a reply; the guest resumes only when every request so far is completed |
| WasiDrive.DispatchMatches | src/appkit/internal.rs:926-1111 | the reply message the engine waits for answers the request message it sent if and only if request and import name the same import |
| WasiDrive.DispatchByName | src/appkit/internal.rs:926-1111 | every import is asked for and awaited with the messages named after it |
| WasiDrive.LifeByTurns | src/appkit/internal.rs:2142-2164 | over every life, in terms of its turns: exit, failure and running each if and only if the first turn that neither expires nor completes an exchange is an exit, a trap or an exchange not completed, or is missing; one resumption per turn up to there; and exactly the requests, replies and completions of these turns, in order |
| WasiDrive.DriveByTurns | src/appkit/internal.rs:1966-2025 | one drive ends as the first turn that is no completed exchange says, and leaves the turns after it |
| WasiDrive.PairedIsMatched | src/appkit/internal.rs:1977-2014 | a sequence of request/completion pairs has matching messages if and only if request and import agree in each |
| WasiDrive.LifeAccepted | src/appkit/internal.rs:2142-2164 | every event of every drive respects the protocol, and only a failure leaves an exchange open |
| WasiDrive.AcceptedIsPaired | src/appkit/internal.rs:1977-2014 | a trace that respects the protocol is a sequence of pairs of a request and the completion of the same boundary step |
| WasiDrive.OneOpenRequest | src/appkit/internal.rs:1977-2014 | at every moment the requests not yet completed are exactly the one the engine waits on |
| WasiDrive.WasiGuestArena.constructor | src/appkit/internal.rs:285-287 | an arena starts unoccupied |
| WasiDrive.WasiGuestArena.Acquire | src/appkit/internal.rs:302-313 | a lease occupies the arena |
| WasiDrive.WasiGuestArena.Release | src/appkit/internal.rs:338-344 | dropping the lease frees it |
| WasiDrive.CanonicalWasiEngine.constructor | src/appkit/internal.rs:1896-1908 | an engine given storage whenever it has a module can be driven |
| WasiDrive.CanonicalWasiEngine.TakeSlot | src/appkit/internal.rs:1915-1926 | the kept guest or a new one leaves the engine with its lease; the missing-storage panic cannot happen; a failed start drops guest and lease |
| WasiDrive.CanonicalWasiEngine.StoreSlot | src/appkit/internal.rs:1929-1943 | a guest out of budget is kept, any other is dropped once and its lease put back |
| WasiDrive.CanonicalWasiEngine.DriveWasiGuest | src/appkit/internal.rs:1966-2025 | one drive: it takes the turns up to the first that is no completed exchange and ends as that turn says; the events are those of the specification; the lease has one owner throughout |
| WasiDrive.CanonicalWasiEngine.Step | src/appkit/internal.rs:1971-2021 | one round of the loop adds the resumption and exactly the request, reply and completion its exchange gets to; it ends the drive as exit only for an exit, as budget expired only for an expired budget, and goes on only after a completed exchange |
| WasiDrive.CanonicalWasiEngine.DropEngine | src/appkit/internal.rs:1870-1881 | a guest still kept is dropped once and the arena is free |
| WasiDrive.CanonicalWasiEngine.DriveCanonical | src/appkit/internal.rs:2142-2164 | the engine's whole life: it ends with an exit if and only if the first turn that does not go on is the guest's exit, and is running if and only if there is none; the guest is resumed once per turn; at most one guest is ever built, it is dropped once, the arena is released after a failure and kept after an exit |
| JsonText.JsonRoundTrip | examples/uno-q-heterogeneous/src/lib.rs:2292-2363 | for every string and everything that may follow it: decoding what was printed gives the string back |
| JsonText.Print | examples/uno-q-heterogeneous/src/lib.rs:2292-2312 | the printing loop quotes the string with every character escaped as section 7 of RFC 8259 asks |
| JsonText.Decode | examples/uno-q-heterogeneous/src/lib.rs:2323-2363 | the parsing loop terminates on every input and returns what the input decodes to (DecodedIsSpelled and TokenMeanings say what that is) |
| JsonText.DecodedIsSpelled | examples/uno-q-heterogeneous/src/lib.rs:2323-2363 | a text decodes to a string if and only if it begins with a quote and then has one token for each of its characters and a closing quote; so any error in between gives nothing |
| JsonText.TokenMeanings | examples/uno-q-heterogeneous/src/lib.rs:2332-2361 | the eight short escapes with their code points, any other letter an error, a raw control character an error, an escape cut short an error, and a \u exactly with four hexadecimal digits |
| JsonText.HexValueIs | examples/uno-q-heterogeneous/src/lib.rs:2373-2378 | a character has the value n exactly if it is digit n, in either case |
| JsonText.EscapeForms | examples/uno-q-heterogeneous/src/lib.rs:2297-2308 | how each character is printed: the five short escapes, four lower-case digits for other control characters, everything else as it is |
| JsonText.DecodeHex4 | examples/uno-q-heterogeneous/src/lib.rs:2366-2381 | four hexadecimal digits of either case give the number they spell, digit n of 0123456789abcdef or 0123456789ABCDEF counting n, and nothing else has a value |
| JsonText.EscapeIsOneToken | examples/uno-q-heterogeneous/src/lib.rs:2297-2308 | wherever it stands, the escape of a character is read as that character and consumed whole |
| JsonText.UnicodeEscape | examples/uno-q-heterogeneous/src/lib.rs:2345-2349 | a \u escape gives the code unit it names if and only if that is no surrogate, else U+FFFD |
| JsonText.SurrogatePairIsLost | examples/uno-q-heterogeneous/src/lib.rs:2345-2349 | the concrete input on which the decoder departs from section 7 of RFC 8259 |
| JsonText.PrintedIsClean | examples/uno-q-heterogeneous/src/lib.rs:2304-2306 | a printed string holds no raw control character |
| LedScan.ScanIsFair | examples/uno-q-heterogeneous/src/bin/uno_q_m33_native_kernel.rs:668-683 | with k lit LEDs and from any scan index, refresh j lights entry j mod k of one fixed round |
| LedScan.RoundIsExact | examples/uno-q-heterogeneous/src/bin/uno_q_m33_native_kernel/matrix.rs:114-131 | a round holds every lit LED exactly once and no dark one |
| LedScan.RefreshRotates | examples/uno-q-heterogeneous/src/bin/uno_q_m33_native_kernel.rs:668-683 | a refresh moves the LED it lights to the back of the round |
| LedScan.FaceIsScanned | examples/uno-q-heterogeneous/src/bin/uno_q_m33_native_kernel.rs:638-683 | for a drawn face, a window of as many refreshes as the face has # cells lights each of them once and nothing else |
| LedScan.NextLitIndex | examples/uno-q-heterogeneous/src/bin/uno_q_m33_native_kernel/matrix.rs:121-131 | the search loop finds the first lit LED at or after the start, going round, every one before it being dark, or that there is none |
| LedScan.LedRendererState.constructor | examples/uno-q-heterogeneous/src/bin/uno_q_m33_native_kernel.rs:627-632 | nothing lit, scan at the start |
| LedScan.LedRendererState.WriteFace | examples/uno-q-heterogeneous/src/bin/uno_q_m33_native_kernel.rs:638-655 | the nested loops light LED 13 * row + column exactly for each # cell of the face, and count them |
| LedScan.LedRendererState.RefreshMatrix | examples/uno-q-heterogeneous/src/bin/uno_q_m33_native_kernel.rs:668-683 | lights the next LED of the round, which is lit in the bitmap, and steps to the one after it, past the last back to 0; with every LED dark it lights none and starts over at 0 |
| CoreLaunch.LaunchCore1 | examples/rp2w-firmware/src/lib.rs:4321-4346 | for every sequence of echoes: it stops within 102 pushes; true exactly when one of the first seventeen attempts is answered in full; then the last six words pushed are 0, 0, 1, the vector table, the stack top and the entry, in that order, each answered; on every run each word pushed is the one of these six that its position in its attempt calls for; the FIFO is drained before exactly the zero words |
| CoreLaunch.LaunchBoundIsTight | examples/rp2w-firmware/src/lib.rs:4321-4346 | the bound of 102 pushes is reached |

## Left out

- The choreography library, the WASM engine, EPF and the Wi-Fi driver: not part of this repository; endpoints, guests and completions are inputs.
- Trace words, markers, metrics, wakers, `signal_peer` and event instructions, and the polling counters of an endpoint.
- Operational deadlines: a poll at its deadline is a poll that finds nothing, and the retry before a deadline error is a further poll.
- The bytes of a frame buffer beyond its length, which no reader looks at, and the bit widths of lengths and indices, which are shown to stay small; the saturating send counters are modelled.
- GPIO registers and interrupt lines of the SIO block.
- The heterogeneous and embedded UNO Q carriers around the queue and the parser (session and role filters, UART registers, the `hint_frame_label` cell, the hardware peer): plumbing around the two modelled parts.
- `local_llm_json_string_field` and the HTTP handling around the JSON strings; strings are sequences of characters instead of UTF-8 bytes, and four characters after `\u` of which one is not ASCII fail in both.
- The embedded, blocking form of the drive loop with its terminal endpoint, and raw pointers and alignment of guest storage; ownership of the lease is a value that moves.
- EPF images, raw sockets, process handling, linker sections, demo choreographies and fixed-size codecs.
- SioPolls.SioTransport.PollRecv: without an operational deadline; and the whole poll is stated for a peer that does not act in between, which `SioCarrier` does not assume.
- SioPolls.SioTransport.DrainFifo: stated for a peer that does not act in between; `SioCarrier` does not assume it.
- MailboxPolls.MailboxTransport.TakeAndDispose: stated for a peer that does not publish in between, so the loop looks twice at most; `MailboxCarrier` does not assume it.
- MailboxPolls.MailboxTransport.PollRecv: stated for a peer that does not publish between the two looks at the mailbox; `MailboxCarrier` does not assume it.
- SioCollisions.PollFailsExactlyOnCollision: stated for a peer that does not act during the poll; `SioCalls.CallFailsExactlyOnCollision` does not assume it.
- MailboxCollisions.PollFailsExactlyOnRefusal: stated for a peer that does not publish during the poll, but on any memory contents; `MailboxCalls.CallFailsExactlyOnCollision` does not assume a quiet peer.
- SioRounds.DeliveryBound: needs the stash slot of the receiving role to be free and nothing to redeliver, as the bound counts rounds from an idle receiver.
- UartFraming.CorruptionIsContained: leaves out the magic and the length byte, because a changed length changes how many of the following bytes the parser consumes.
- SioDevice.SioBlock.Read: the GPIO registers, whose state is not modelled, cannot be read.
- SioDevice.SioBlock.Write: the GPIO registers cannot be written.
- WasiDrive.CanonicalWasiEngine.DriveWasiGuest: the guest's steps and the endpoint's answers are a finite list, and the drive is not abandoned while it waits for the endpoint.
- WasiDrive.CanonicalWasiEngine.DriveCanonical: the guest's steps and the endpoint's answers are given as a finite list; when it ends the drive is still running and its guest is counted as kept.
- WasiDrive.WasiGuestArena.Acquire: leasing an arena that is already leased panics in the source and is a precondition here.
- CoreLaunch.LaunchCore1: the blocking waits for each push and pop are not modelled; every push is assumed to be answered.
- LedScan.LedRendererState.RefreshMatrix: the GPIO writes that light the LED are replaced by returning its index.
