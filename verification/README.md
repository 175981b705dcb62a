# Verified model of the AIC8800 driver

A Dafny model of the state machines and data structures at the core of the AIC8800 Linux driver
(`drivers/aic8800/aic8800_fdrv`), with proofs of what they keep, deliver and promise. `dafny verify dfyconfig.toml` checks
all of it.

| modules | what they model |
|---|---|
| Common, Headers, Bits, BitFacts, BitDigits, Alignment | what components share; words as numbers, masks, shifts and single digits; the ALIGN macro |
| CommandQueue, CommandSystem, CommandInvariant, CommandDecision, CommandProgress, CommandKill | the firmware command manager: callers, worker, firmware and confirmations in every interleaving of their critical sections, and fatal signals to callers |
| TcpAckFlow, TcpAckDecision, TcpAckAge, TcpAckExpiry, TcpAckFilter, TcpAckRuns | the TCP ACK filter: one flow over time, which of its ACKs are sent at once, when it expires and what that does, the table of 32 with the message buffers that pass through it, and its runs |
| Md5Spec, Md5Functions, Md5, Md5Context | MD5: RFC 1321 as a specification, its functions digit by digit, the block code, and the streaming context |
| Nat25Table, Nat25Db, Nat25Runs, Nat25Shortcut, Nat25Frame, Nat25Delivery | the NAT2.5 hash table in an explicit memory, its operations, its bindings and its shortcut over time, where frames go, and the in-place VLAN handling of a received frame |
| IpcHost | the IPC TX descriptor rings with free-running 32-bit indices |
| FrameQueue | the bounded queue of frames in up to eight priority classes |
| Deaggregation | taking a received SDIO transfer apart |
| SdioAggregation, SdioCredits, SdioProgress | packing frames into SDIO transfers, how many may be sent, and that all are |
| UsbReassembly, UsbFragments | putting packets together from USB transfers: the step meant, and what the fragment counters make of it |
| UsbTxPool, UsbTxSystem, UsbTxOrder, UsbTxStuck | the USB transmit buffers and their flow control in every interleaving |

Each component has its code form, a class whose methods and loops follow the source, and a specification on values; the
methods are proved to compute the specification, and lemmas prove what the specification promises over all inputs and
runs. Ghost fields of the classes record histories (what was pushed, freed, absorbed), so that conservation can be stated.

Where the code does not meet what it is for, a lemma says when it does:

- A fatal signal to a caller that waits for a confirmation is taken for a completion. Because of it the firmware can be
  given two commands at once exactly when the bus is up, it holds the caller's command, and either no wait has run out or
  the worker can get to commands behind it (`CommandKill.KillLetsTwoInExactlyWhenExposed`).
- A TCP flow may expire while it holds an ACK back. With timers that run in time, its latest number is then handed for
  transmission exactly when an ACK with that number was handed before (`TcpAckExpiry.LatestArrivesInTimeExactlyWhen`); a
  timer that were seconds late could still save it (`TcpAckExpiry.LatestArrivesExactlyWhen`).
- The shortcut of NAT2.5 lets go of its entry when an unknown sender comes, but keeps its MAC and address. It can then
  answer for an address that is not bound any more, and does so exactly in this way (`Nat25Shortcut.StaleExactlyWhen`,
  `Nat25Shortcut.ShortcutOutlivesItsEntry`).
- MD5Update ends exactly on inputs shorter than 2^32 - 64 bytes, or 2^32 - n bytes when n > 0 bytes wait in the buffer;
  beyond, its 32-bit loop counter wraps (`Md5.LoopEndsExactlyBelowLimit`).
- A received SDIO record that is cut short, or whose length wraps to zero, is handed on again and again: `skb_pull` does
  nothing when asked for more than there is, and its result is not looked at (`Deaggregation.EndsExactlyWhenParsed`).
- A frame whose padded length is 4096 bytes or more does not survive SDIO aggregation; this includes bodies of 4093 to 4095
  bytes (`SdioAggregation.ComesBackExactlyWhen`).
- More frames are sent than the firmware has buffers exactly when a reading of the flow-control register leaves some
  buffers, but fewer than frames are held, and they are sent before the next reading
  (`SdioCredits.OverspendsExactlyWhenShort`).
- Nothing looks whether a frame fits the SDIO aggregation buffer. As long as the credits are kept it does, exactly when the
  buffer has room for as many of the longest records as the register ever allows (`SdioCredits.RoomExactlyWhen`): for
  records of 1536 bytes up to 64, where the register can say 127 (`SdioCredits.RoomFor64`).
- ALIGN with the 12288-byte transfer size, which is no power of two, counts fragments wrongly for some lengths; longer
  packets arrive exactly if their length is in one of three ranges (`UsbFragments.PacketArrivesAt12288ExactlyWhen`).
- A USB fragment is copied past the end of its packet's buffer exactly when a packet longer than a transfer is counted as
  one fragment, and the transfer after its first is full too (`UsbFragments.OverrunsExactlyWhen`). With 12288-byte transfers
  these are the packets of up to 20480 bytes (`UsbFragments.OverrunsAt12288ExactlyWhen`); with a power of two there
  are none (`UsbFragments.PowersNeverOverrun`).
- A failed USB submission gives its buffer back without comparing with the high-water mark. For a number of
  failures since a completion last compared, some run ends with all buffers free and the network queues closed exactly when
  it is 50 or more (`UsbTxStuck.ClosedExactlyFromFifty`). They stay closed until a completion compares again
  (`UsbTxStuck.ClosedUntilACompletionCompares`), which one management frame is enough for (`UsbTxStuck.OneFrameOpensThem`).

Some of the code is there only under build options. The model has the options on that its subject needs, although the
Makefile has several of them off: SDIO, bridge support for the NAT2.5 table, per-station flow control and USB reassembly.
USB aggregation stays off. Where the code and its comments differ, the model follows the code.

## Model

| member | source | states |
|---|---|---|
| CommandQueue.CommandManager.Append | drivers/aic8800/aic8800_fdrv/rwnx_cmds.c:197-224 | a submit that is accepted puts its command at the end of the list, one longer, under the next token |
| CommandQueue.CommandManager.Queue | drivers/aic8800/aic8800_fdrv/rwnx_cmds.c:123-244 | the outcome of a submit (crashed, too many, look again, transmit now, left to the worker) and the list afterwards, in every state of the manager |
| CommandQueue.CommandManager.QueueForceDefer | drivers/aic8800/aic8800_fdrv/rwnx_cmds.c:68-120 | the same for a submit that always leaves its command to the worker |
| CommandDecision.SubmitDecides | drivers/aic8800/aic8800_fdrv/rwnx_cmds.c:123-247 | over all runs: a submit changes nothing exactly if the manager is crashed, the list full, or a caller with a reply buffer finds commands listed; else its caller transmits exactly if the message need not be left to the worker and all listed commands are finished |
| CommandDecision.ReplyCallerIsAlone | drivers/aic8800/aic8800_fdrv/rwnx_cmds.c:140-160 | over all runs a caller that waits for a reply changes nothing, or has the only command listed and transmits it |
| CommandDecision.ForcedIsLeftToTheWorker | drivers/aic8800/aic8800_fdrv/rwnx_cmds.c:216-243 | over all runs a message that must be left to the worker is never transmitted by its caller |
| CommandDecision.RefusedBecause | drivers/aic8800/aic8800_fdrv/rwnx_cmds.c:140-187 | which of the three refusals a caller meets |
| CommandDecision.DeferDecides | drivers/aic8800/aic8800_fdrv/rwnx_cmds.c:68-120 | a submit that always defers is refused only by a crashed manager or a full list, and always wakes the worker |
| CommandDecision.CrashedForGood | drivers/aic8800/aic8800_fdrv/rwnx_cmds.c:145-150 | after a wait has run out, no run accepts another command |
| CommandDecision.WokenExactlyBy | drivers/aic8800/aic8800_fdrv/rwnx_cmds.c:239-290 | who wakes the worker |
| CommandQueue.CommandManager.ReadHead | drivers/aic8800/aic8800_fdrv/rwnx_cmds.c:353-369 | the worker takes the head exactly when it waits to be pushed |
| CommandQueue.CommandManager.StartPush | drivers/aic8800/aic8800_fdrv/rwnx_cmds.c:367-378 | the worker marks its command as handed on, and no other |
| CommandQueue.CommandManager.ListDel | drivers/aic8800/aic8800_fdrv/rwnx_cmds.c:281-288 | removing a completed command keeps the order of all others and counts down once |
| CommandQueue.CommandManager.HandleMsg | drivers/aic8800/aic8800_fdrv/rwnx_cmds.c:438-488 | a confirmation completes the first listed command that waits for it and changes no other; it reports whether there was one |
| CommandQueue.CommandManager.TimeOut | drivers/aic8800/aic8800_fdrv/rwnx_cmds.c:260-279 | a wait that runs out makes the manager crashed and completes the command, which stays listed |
| CommandInvariant.EventKeeps | drivers/aic8800/aic8800_fdrv/rwnx_cmds.c:123-297 | every step of every thread keeps the invariant of list, threads, worker, firmware and wake-ups, except a fatal signal to the caller of a command that the firmware holds |
| CommandInvariant.RunKeeps | drivers/aic8800/aic8800_fdrv/rwnx_cmds.c:123-297 | so do all interleavings of any length without such a signal |
| CommandInvariant.ListShape | drivers/aic8800/aic8800_fdrv/rwnx_cmds.c:345-411 | the list is always finished commands, then at most one outstanding, then commands that wait to be pushed; the count is its length and within the limit |
| CommandInvariant.OneAtATimeInOrder | drivers/aic8800/aic8800_fdrv/rwnx_cmds.c:232-238 | the firmware gets the commands in the order of acceptance, none skipped, and holds at most one unconfirmed, the last |
| CommandInvariant.ConfirmationFindsItsCommand | drivers/aic8800/aic8800_fdrv/rwnx_cmds.c:456-478 | the confirmation of the command the firmware holds finds that command, even if later ones wait for the same confirmation |
| CommandInvariant.NoLostWakeUp | drivers/aic8800/aic8800_fdrv/rwnx_cmds.c:239-247 | with the bus up, a head that waits to be pushed is always about to be looked at by somebody, although a deferred submit wakes the worker only on a list of one |
| CommandProgress.EventWorks | drivers/aic8800/aic8800_fdrv/rwnx_cmds.c:353-409 | every step of the host and the firmware uses up work |
| CommandProgress.SomebodyCanGoOn | drivers/aic8800/aic8800_fdrv/rwnx_cmds.c:281-290 | while commands are listed, some thread can go on: no deadlock |
| CommandProgress.CommandsDrain | drivers/aic8800/aic8800_fdrv/rwnx_cmds.c:345-411 | so the list drains: within a bounded number of steps every accepted command was sent in order, confirmed and removed |
| CommandKill.KillLetsTwoInExactlyWhenExposed | drivers/aic8800/aic8800_fdrv/rwnx_cmds.c:259-288 | after a fatal signal to a waiting caller the firmware can be given two commands at once exactly when the bus is up, the firmware holds the caller's command, and no wait has run out or the worker can get to commands behind it |
| CommandKill.ExposedIsReached | drivers/aic8800/aic8800_fdrv/rwnx_cmds.c:259-288 | the first command is such a one as soon as the firmware has it |
| CommandKill.HeldIsNotCompleted | drivers/aic8800/aic8800_fdrv/rwnx_cmds.c:259-288 | with the bus up, the firmware holds the command of a waiting caller exactly when its flags do not say that it is completed |
| CommandKill.DrainingReaches | drivers/aic8800/aic8800_fdrv/rwnx_cmds.c:353-409 | with commands waiting behind the removed one, the worker gets to the first of them and hands it over |
| CommandKill.KilledCallerLetsTwoCommandsIn | drivers/aic8800/aic8800_fdrv/rwnx_cmds.c:259-288 | with the removed command the last of the list, the next caller transmits at once |
| CommandKill.StaysClosed | drivers/aic8800/aic8800_fdrv/rwnx_cmds.c:353-409 | otherwise nothing is transmitted any more |
| CommandKill.KillKeepsExactlyWhenConfirmed | drivers/aic8800/aic8800_fdrv/rwnx_cmds.c:259-288 | the signal keeps the internal invariant exactly when the firmware does not hold the command |
| TcpAckFlow.BeforeIsForward | drivers/aic8800/aic8800_fdrv/aicwf_tcp_ack.h:18 | the wrap-around comparison is the sign of the distance modulo 2^32 |
| TcpAckFlow.StepKeeps | drivers/aic8800/aic8800_fdrv/aicwf_tcp_ack.c:348-424 | every event of a flow moves the recorded number only forward and keeps it covered |
| TcpAckFlow.RunKeeps | drivers/aic8800/aic8800_fdrv/aicwf_tcp_ack.c:348-424 | so does every run |
| TcpAckFlow.NothingIsLost | drivers/aic8800/aic8800_fdrv/aicwf_tcp_ack.c:348-424 | after any run every ACK was handed for transmission, is held, or was freed and is covered by an equal or later one that was not freed |
| TcpAckFlow.ExpiryIsSafeWhenNothingIsHeld | drivers/aic8800/aic8800_fdrv/aicwf_tcp_ack.c:285-308 | when a flow that holds no ACK expires, the latest number was handed for transmission |
| TcpAckFlow.ExpiryWhileHoldingLosesTheAck | drivers/aic8800/aic8800_fdrv/aicwf_tcp_ack.c:285-308 | an instance of a loss: the next flow of the entry frees the held ACK with its first newer number |
| TcpAckDecision.HandedExactlyWhen | drivers/aic8800/aic8800_fdrv/aicwf_tcp_ack.c:363-396 | a new ACK is handed at once exactly when it goes forward and goes past a noted PSH, or nothing is in transmission and enough were held |
| TcpAckDecision.PushIsAnswered | drivers/aic8800/aic8800_fdrv/aicwf_tcp_ack.c:372-388 | over all runs after a received PSH: the first ACK past its number is handed at once, whatever is in transmission, and the PSH is answered once |
| TcpAckDecision.OneInSoMany | drivers/aic8800/aic8800_fdrv/aicwf_tcp_ack.c:376-396 | once a handed ACK is reported, max_drop_cnt - 1 newer ones in a row are held and the next is handed |
| TcpAckDecision.HeldDuringTransmission | drivers/aic8800/aic8800_fdrv/aicwf_tcp_ack.c:382-396 | while one is in transmission and no PSH noted, newer ones are held, however many |
| TcpAckDecision.TimerBeginsAnew | drivers/aic8800/aic8800_fdrv/aicwf_tcp_ack.c:48-60 | the timer hands out the held ACK, and counting begins anew |
| TcpAckDecision.SecondAckIsHanded | drivers/aic8800/aic8800_fdrv/aicwf_tcp_ack.c:496-518 | a new flow does not inherit the PSH of the one before, and its second ACK is handed too |
| TcpAckDecision.ScaleIsLastGiven | drivers/aic8800/aic8800_fdrv/aicwf_tcp_ack.c:475-505 | an entry has the last window scale its flow gave, or 1 |
| TcpAckAge.ExpiresExactlyWhenOld | drivers/aic8800/aic8800_fdrv/aicwf_tcp_ack.c:285-308 | with the clock modulo 2^64: an ageing frees exactly the busy entries whose last ACK is longer ago than the timeout |
| TcpAckAge.ActiveFlowStays | drivers/aic8800/aic8800_fdrv/aicwf_tcp_ack.c:285-308 | over all sendings, a flow whose ACKs come in time keeps its entry |
| TcpAckAge.SilentFlowIsFreed | drivers/aic8800/aic8800_fdrv/aicwf_tcp_ack.c:285-308 | a silent flow has lost it by the first ACK of anybody that comes twice the timeout later |
| TcpAckExpiry.HeldEndsByFate | drivers/aic8800/aic8800_fdrv/aicwf_tcp_ack.c:466-516 | over all later lives of the entry, through any number of flows, the held message is transmitted if the timer gets to it, freed if a newer number of a later flow does, and held otherwise |
| TcpAckExpiry.LatestArrivesExactlyWhen | drivers/aic8800/aic8800_fdrv/aicwf_tcp_ack.c:285-308 | over all runs of a flow that then expires: its latest number has been or will be handed for transmission exactly when no ACK is held, or a handed one has the same number, or the timer gets to the held one before a later flow drops it |
| TcpAckExpiry.HeldMayEndEitherWay | drivers/aic8800/aic8800_fdrv/aicwf_tcp_ack.c:466-516 | with a timer that may run at any time, the held ACK may still be transmitted, or be dropped |
| TcpAckExpiry.SoonKept | drivers/aic8800/aic8800_fdrv/aicwf_tcp_ack.c:381-396 | the timer of an entry, if pending, is to run within 5 ms after its last ACK, through every event and over to the next flow |
| TcpAckExpiry.ExpiryFindsNoTimer | drivers/aic8800/aic8800_fdrv/aicwf_tcp_ack.c:285-308 | so none is pending when the entry expires, unless timers are as late as an entry is old |
| TcpAckExpiry.NotHandedWithoutTimer | drivers/aic8800/aic8800_fdrv/aicwf_tcp_ack.c:356-396 | an ACK held without a timer is never handed on, whatever happens to the entry: what would set the timer drops the ACK |
| TcpAckExpiry.LatestArrivesInTimeExactlyWhen | drivers/aic8800/aic8800_fdrv/aicwf_tcp_ack.c:285-396 | over all runs with timers that run in time: the latest number of an expired flow arrives exactly when no ACK is held at the expiry, or one with that number was handed before |
| TcpAckExpiry.SilentFlowLosesItsLatest | drivers/aic8800/aic8800_fdrv/aicwf_tcp_ack.c:356-396 | a run in time in which it does not arrive |
| TcpAckRuns.MethodsAreOperations | drivers/aic8800/aic8800_fdrv/aicwf_tcp_ack.c:22-542 | the contracts of all methods that change the table (ageing, deciding, admitting, noting a push, the timer, a report) are the operations of a run; whether an ageing is due is left open there |
| TcpAckRuns.OperationKeeps | drivers/aic8800/aic8800_fdrv/aicwf_tcp_ack.c:285-542 | every operation on the table is a step of the flows on it |
| TcpAckRuns.FreedAcksAreCovered | drivers/aic8800/aic8800_fdrv/aicwf_tcp_ack.c:285-542 | over all runs of the filter in which entries expire holding nothing, each freed ACK of each flow, on the table or over, is covered by an equal or later one of the flow |
| TcpAckFilter.Filter.Match | drivers/aic8800/aic8800_fdrv/aicwf_tcp_ack.c:257-283 | finds the entry of a flow, -1 exactly when it has none |
| TcpAckFilter.Filter.Update | drivers/aic8800/aic8800_fdrv/aicwf_tcp_ack.c:285-308 | when it is time, exactly the busy entries that are too old become free |
| TcpAckFilter.Filter.AllocIndex | drivers/aic8800/aic8800_fdrv/aicwf_tcp_ack.c:310-345 | a free entry, -1 exactly when all 32 are busy |
| TcpAckFilter.Filter.Judge | drivers/aic8800/aic8800_fdrv/aicwf_tcp_ack.c:361-408 | the branches and counters of the critical section amount to the decision send, hold or drop of the flow model |
| TcpAckFilter.Filter.HandleNew | drivers/aic8800/aic8800_fdrv/aicwf_tcp_ack.c:348-424 | one ACK is decided upon; it and the one it replaces each end in one place |
| TcpAckFilter.Filter.SendAck | drivers/aic8800/aic8800_fdrv/aicwf_tcp_ack.c:452-518 | a sent ACK after expiry: decided upon if its flow has an entry, else transmitted and its flow admitted unless the table is full |
| TcpAckFilter.Filter.NoteReceivedPush | drivers/aic8800/aic8800_fdrv/aicwf_tcp_ack.c:426-449 | a received PSH marks the entry of its flow and nothing else |
| TcpAckFilter.Filter.Fire | drivers/aic8800/aic8800_fdrv/aicwf_tcp_ack.c:31-62 | the timer transmits the held ACK unless one is in transmission |
| TcpAckFilter.Filter.MoveMsg | drivers/aic8800/aic8800_fdrv/aicwf_tcp_ack.c:522-542 | a reported transmission frees the way for the next one of its flow |
| TcpAckFilter.Filter.Deinit | drivers/aic8800/aic8800_fdrv/aicwf_tcp_ack.c:97-118 | afterwards every message ever given was transmitted once or freed once |
| TcpAckFilter.Filter.OnePlaceEach | drivers/aic8800/aic8800_fdrv/aicwf_tcp_ack.c:31-62 | a transmitted message was transmitted once and is neither freed nor held |
| TcpAckFilter.Filter.FreedIsGone | drivers/aic8800/aic8800_fdrv/aicwf_tcp_ack.c:97-118 | a freed message was freed once and is neither transmitted nor held |
| TcpAckFilter.Filter.HeldOnce | drivers/aic8800/aic8800_fdrv/aicwf_tcp_ack.c:348-424 | a held message is held by one entry only |
| TcpAckFilter.CountChanged | drivers/aic8800/aic8800_fdrv/aicwf_tcp_ack.c:466-516 | the count of busy entries follows every change of one entry |
| Md5Spec.DecodeEncode | drivers/aic8800/aic8800_fdrv/md5.c:53-77 | decoding what was encoded gives the words back |
| Md5Spec.EncodeDecode | drivers/aic8800/aic8800_fdrv/md5.c:53-77 | encoding what was decoded gives the bytes back |
| BitDigits.RotateBit | drivers/aic8800/aic8800_fdrv/md5.h:16 | rotating moves each digit, around the end of the word |
| Md5Functions.FChooses | drivers/aic8800/aic8800_fdrv/md5.h:12 | each digit of F is that of y or z, as that of x says |
| Md5Functions.GChooses | drivers/aic8800/aic8800_fdrv/md5.h:13 | each digit of G is that of x or y, as that of z says |
| Md5Functions.HIsParity | drivers/aic8800/aic8800_fdrv/md5.h:14 | each digit of H is the parity of the three |
| Md5Functions.IDiffers | drivers/aic8800/aic8800_fdrv/md5.h:15 | each digit of I says whether that of y differs from (x or not z) |
| Md5Functions.OperationRotates | drivers/aic8800/aic8800_fdrv/md5.h:17-40 | an operation adds b to the sum of the other four with its digits moved by s |
| Md5.Macro | drivers/aic8800/aic8800_fdrv/md5.h:17-40 | the three assignments of the macros, each modulo 2^32, are the operation of RFC 1321 |
| Md5Functions.InitialBytes | drivers/aic8800/aic8800_fdrv/md5.c:14-17 | the initial registers are the bytes 01 23 ... 10 of section 3.3 of RFC 1321 |
| Md5.JoinIsSum | drivers/aic8800/aic8800_fdrv/md5.c:71-74 | joining four shifted bytes by | is adding them |
| Md5Spec.BlocksAppend | drivers/aic8800/aic8800_fdrv/md5.c:18-41 | digesting block by block does not depend on where the input is cut between blocks |
| Md5.Decode | drivers/aic8800/aic8800_fdrv/md5.c:66-77 | the loop reads the little-endian words of its input |
| Md5.Encode | drivers/aic8800/aic8800_fdrv/md5.c:53-64 | the loop writes the little-endian bytes of its input |
| Md5.Round1 | drivers/aic8800/aic8800_fdrv/md5.c:84-103 | sixteen FF steps as the loop-free code lists them are operations 1 to 16 of section 3.4 of RFC 1321 |
| Md5.Round2 | drivers/aic8800/aic8800_fdrv/md5.c:105-121 | the same for GG |
| Md5.Round3 | drivers/aic8800/aic8800_fdrv/md5.c:123-139 | the same for HH |
| Md5.Round4 | drivers/aic8800/aic8800_fdrv/md5.c:141-157 | the same for II |
| Md5.Transform | drivers/aic8800/aic8800_fdrv/md5.c:79-161 | MD5Transform is the block function of RFC 1321 |
| Md5.CountAdds | drivers/aic8800/aic8800_fdrv/md5.c:23-27 | adding in two words with a carry is adding modulo 2^64 |
| Md5.LoopEndsExactlyBelowLimit | drivers/aic8800/aic8800_fdrv/md5.c:32-37 | the loop of MD5Update ends exactly when the input is shorter than 2^32 - 64 bytes (on an empty buffer) or 2^32 - index bytes; otherwise its 32-bit counter wraps and it runs for ever |
| Md5Context.Context.Update | drivers/aic8800/aic8800_fdrv/md5.c:18-41 | state, buffer and count stand for the old message and the input |
| Md5Context.Context.AbsorbBlocks | drivers/aic8800/aic8800_fdrv/md5.c:28-37 | the middle loop absorbs exactly the complete blocks |
| Md5Context.Context.Final | drivers/aic8800/aic8800_fdrv/md5.c:42-52 | MD5Final gives the RFC 1321 digest of everything absorbed |
| Md5Context.DigestOfParts | drivers/aic8800/aic8800_fdrv/md5.c:9-52 | every way of cutting a message into parts, each short enough for MD5Update to end, gives the digest of the whole message |
| Nat25Table.LinkKeeps | drivers/aic8800/aic8800_fdrv/aic_br_ext.c:364-379 | linking an entry keeps chains, back pointers, buckets and unique keys, and adds it to the map |
| Nat25Table.UnlinkKeeps | drivers/aic8800/aic8800_fdrv/aic_br_ext.c:381-394 | unlinking an entry keeps them all and takes it out of the map |
| Nat25Table.TouchKeeps | drivers/aic8800/aic8800_fdrv/aic_br_ext.c:397-505 | writing the data of an entry keeps the links and changes that one binding |
| Nat25Db.Vif.Find | drivers/aic8800/aic8800_fdrv/aic_br_ext.c:405-411 | the walk along one chain finds the entry of an address exactly when there is one |
| Nat25Db.Vif.LookupAndReplace | drivers/aic8800/aic8800_fdrv/aic_br_ext.c:397-467 | found exactly when the address is known; the MAC is replaced and the use counted only if the entry has not expired |
| Nat25Db.Vif.Insert | drivers/aic8800/aic8800_fdrv/aic_br_ext.c:470-505 | a known address is renewed, an unknown one added with one use |
| Nat25Db.Vif.LinkEntry | drivers/aic8800/aic8800_fdrv/aic_br_ext.c:364-379 | the pointer writes of linking |
| Nat25Db.Vif.UnlinkEntry | drivers/aic8800/aic8800_fdrv/aic_br_ext.c:381-394 | the pointer writes of unlinking, and the memory given back |
| Nat25Db.Vif.Drop | drivers/aic8800/aic8800_fdrv/aic_br_ext.c:674-697 | an entry goes out of chains, map and memory, and the shortcut is cleared exactly if it was its entry |
| Nat25Db.Vif.ExpireEntry | drivers/aic8800/aic8800_fdrv/aic_br_ext.c:668-700 | one entry of the expiry walk: kept, one use less, or gone |
| Nat25Db.Vif.Expire | drivers/aic8800/aic8800_fdrv/aic_br_ext.c:622-706 | removes exactly the expired entries whose last use this was, takes a use from the other expired ones and leaves the rest alone; the shortcut goes exactly with its entry |
| Nat25Db.Vif.Cleanup | drivers/aic8800/aic8800_fdrv/aic_br_ext.c:594-619 | empties table, memory and shortcut |
| Nat25Db.Vif.NoteShortcut | drivers/aic8800/aic8800_fdrv/rwnx_tx.c:1100-1130 | which entry, MAC and address the shortcut has afterwards, in all cases, and that its entry is renewed |
| Nat25Runs.ExpiredIsOld | drivers/aic8800/aic8800_fdrv/aic_br_ext.c:129-146 | the comparison modulo 2^64 says exactly that the timeout has passed |
| Nat25Runs.OneAct | drivers/aic8800/aic8800_fdrv/aic_br_ext.c:397-680 | what seeing, renewing, asking for and expiring do to one address |
| Nat25Runs.StaysBound | drivers/aic8800/aic8800_fdrv/aic_br_ext.c:397-680 | over all runs an address keeps its entry, with the MAC seen last, as long as no expiry finds it old |
| Nat25Runs.GoneExactlyWhen | drivers/aic8800/aic8800_fdrv/aic_br_ext.c:622-680 | over all runs an address that is neither seen nor asked for is gone exactly when as many expiries found it old as it had uses |
| Nat25Runs.NewAddressExpiresOnce | drivers/aic8800/aic8800_fdrv/aic_br_ext.c:470-510 | an address seen for the first time goes with the first of them |
| Nat25Runs.AnsweredInTime | drivers/aic8800/aic8800_fdrv/aic_br_ext.c:403-410 | a frame gets the MAC of its address exactly when that was seen less than the timeout ago |
| Nat25Shortcut.StaleExactlyWhen | drivers/aic8800/aic8800_fdrv/rwnx_tx.c:1100-1130 | over all runs: the shortcut answers for an address that is not bound any more exactly when it let go of its entry for an unknown sender, did not change since, and the address is unbound |
| Nat25Shortcut.StaleAnswers | drivers/aic8800/aic8800_fdrv/aic_br_ext.c:1398-1406 | frames for the address then still go to the MAC noted |
| Nat25Shortcut.ShortcutOutlivesItsEntry | drivers/aic8800/aic8800_fdrv/rwnx_tx.c:1100-1130 | four events after which it does |
| Nat25Frame.TagComesBack | drivers/aic8800/aic8800_fdrv/aic_br_ext.c:1388-1438 | taking a tag out and putting it back around a change of the destination changes the destination only |
| Nat25Frame.Skb.MoveUp | drivers/aic8800/aic8800_fdrv/aic_br_ext.c:1391-1392 | the overlapping copies, last word first, move the addresses up by four bytes |
| Nat25Frame.Skb.MoveDown | drivers/aic8800/aic8800_fdrv/aic_br_ext.c:1429-1430 | the overlapping copies, first word first, move them down again |
| Nat25Frame.Skb.StripTag | drivers/aic8800/aic8800_fdrv/aic_br_ext.c:1388-1394 | leaves the untagged frame in place and no byte outside it changed |
| Nat25Frame.Skb.RestoreTag | drivers/aic8800/aic8800_fdrv/aic_br_ext.c:1427-1434 | leaves the tagged frame in place and no byte outside it changed |
| Nat25Frame.Bridge.Lookup | drivers/aic8800/aic8800_fdrv/aic_br_ext.c:753-809 | an IPv4 frame goes to the station the table knows, else to all on a broadcast address, else to the bridge; a malformed one is refused |
| Nat25Frame.Bridge.HandleFrame | drivers/aic8800/aic8800_fdrv/aic_br_ext.c:1367-1441 | every IPv4 frame of any length, tagged or not, keeps its place, length, tag, source and payload; only its destination changes, as the shortcut or the table says |
| Nat25Delivery.GoesToTheStationSeen | drivers/aic8800/aic8800_fdrv/aic_br_ext.c:786-809 | a frame goes to the station that was seen with its address, whatever else happened since |
| Nat25Delivery.UnknownGoesToTheBridge | drivers/aic8800/aic8800_fdrv/aic_br_ext.c:791-805 | one for an address never seen goes to all on a broadcast address and else to the bridge, whose MAC is read once |
| Nat25Delivery.OldKeepsDestination | drivers/aic8800/aic8800_fdrv/aic_br_ext.c:403-410 | one for an address seen too long ago keeps its destination |
| Nat25Delivery.ShortcutAnswersItsAddress | drivers/aic8800/aic8800_fdrv/aic_br_ext.c:1396-1424 | which frames the shortcut answers, which are looked up, and which left alone |
| Nat25Delivery.RefusedExactlyWhenMalformed | drivers/aic8800/aic8800_fdrv/aic_br_ext.c:753-760 | which are refused |
| Nat25Delivery.BucketOfIpv4 | drivers/aic8800/aic8800_fdrv/aic_br_ext.c:312-330 | the bucket of an IPv4 address is the parity of its bytes, digit by digit |
| IpcHost.MaskIsRemainder | drivers/aic8800/aic8800_fdrv/ipc_host.c:37-57 | the masks are remainders by the ring sizes |
| IpcHost.NextFreeIsNotFull | drivers/aic8800/aic8800_fdrv/ipc_host.c:565-585 | the comparison of two wrapped indices says full exactly on a full ring |
| IpcHost.CallbackFindsRoom | drivers/aic8800/aic8800_fdrv/ipc_host.c:231-238 | with the used index advanced before the callback runs, the callback finds a free descriptor |
| IpcHost.PushAppends | drivers/aic8800/aic8800_fdrv/ipc_host.c:591-606 | writing the slot at the free index appends to the queue |
| IpcHost.ClearTakes | drivers/aic8800/aic8800_fdrv/ipc_host.c:236-260 | clearing the slot at the used index takes the oldest; writing it back undoes that |
| IpcHost.TxRing.TxdescGet | drivers/aic8800/aic8800_fdrv/ipc_host.c:565-585 | a descriptor exactly when fewer are pending than the ring has |
| IpcHost.TxRing.TxdescPush | drivers/aic8800/aic8800_fdrv/ipc_host.c:591-610 | appends the id, for all pairs of indices including the wrap at 2^32 |
| IpcHost.TxRing.TxFlush | drivers/aic8800/aic8800_fdrv/ipc_host.c:299-315 | takes the oldest id, 0 exactly on an empty ring |
| IpcHost.TxRing.TakeOldest | drivers/aic8800/aic8800_fdrv/ipc_host.c:231-258 | the oldest id comes out; a refused confirmation restores index and slots exactly |
| IpcHost.TxRing.ConfirmOne | drivers/aic8800/aic8800_fdrv/ipc_host.c:231-261 | a callback that takes the id may push others, and finds room for the first |
| IpcHost.TxRing.TxCfmHandler | drivers/aic8800/aic8800_fdrv/ipc_host.c:226-266 | ids are handed out in push order, those pushed by callbacks in between included, until none is pending or one is refused |
| IpcHost.TxFramesPending | drivers/aic8800/aic8800_fdrv/ipc_host.c:271-294 | true exactly when some ring holds an id |
| FrameQueue.TakingServesFirst | drivers/aic8800/aic8800_fdrv/aicwf_txrxif.c:1226-1246 | the head of the highest class in use is the first of the service order |
| FrameQueue.LoneClass | drivers/aic8800/aic8800_fdrv/aicwf_txrxif.c:1261-1291 | a class as long as the whole queue is the only one in use |
| FrameQueue.Queue.Penq | drivers/aic8800/aic8800_fdrv/aicwf_txrxif.c:1150-1164 | appends to one class and keeps count, hint and frames |
| FrameQueue.Queue.PeekTail | drivers/aic8800/aic8800_fdrv/aicwf_txrxif.c:1196-1211 | the youngest frame of the lowest class in use, none exactly when empty |
| FrameQueue.Queue.IsEmpty | drivers/aic8800/aic8800_fdrv/aicwf_txrxif.c:1213-1224 | equivalent to a count of zero and an empty service order |
| FrameQueue.Queue.Dequeue | drivers/aic8800/aic8800_fdrv/aicwf_txrxif.c:1226-1246 | the first of the service order; fails only on an empty queue |
| FrameQueue.Queue.Enq | drivers/aic8800/aic8800_fdrv/aicwf_txrxif.c:1261-1291 | accepted exactly when there is room or a strictly lower class is in use; then the youngest frame of the lowest class gives way to the new one |
| FrameQueue.Queue.Flush | drivers/aic8800/aic8800_fdrv/aicwf_txrxif.c:1166-1181 | drops every frame |
| FrameQueue.Queue.ServeAll | drivers/aic8800/aic8800_fdrv/aicwf_txrxif.c:480-490 | draining serves by class, then by age |
| Deaggregation.EndsExactlyWhenParsed | drivers/aic8800/aic8800_fdrv/aicwf_txrxif.c:490-538 | the receive loop ends exactly when the buffer is a row of complete records |
| Deaggregation.SomeDoNotParse | drivers/aic8800/aic8800_fdrv/aicwf_txrxif.c:490-538 | two buffers that are not: a record cut short, and a length that wraps to zero |
| Headers.KindsByMasks | drivers/aic8800/aic8800_fdrv/aicwf_txrxif.c:494-531 | how the kind is told, by the masks of the source |
| Deaggregation.RecordsComeOut | drivers/aic8800/aic8800_fdrv/aicwf_txrxif.c:490-538 | well-formed records up to the end or a zero length are handed on once each, in order, to the handler of their kind |
| Deaggregation.RxBuffer.HandOn | drivers/aic8800/aic8800_fdrv/aicwf_txrxif.c:491-536 | one round with its 16-bit lengths |
| Deaggregation.RxBuffer.Process | drivers/aic8800/aic8800_fdrv/aicwf_txrxif.c:348-538 | the loop hands on exactly the records of the buffer |
| SdioAggregation.ComesBackExactlyWhen | drivers/aic8800/aic8800_fdrv/aicwf_sdio.c:829-858 | reading the transfer by its headers gives back the frames packed, whatever follows, exactly when each padded frame is shorter than 4096 bytes |
| SdioAggregation.LastBlock | drivers/aic8800/aic8800_fdrv/aicwf_sdio.c:483-503 | the four zero bytes never need a block of their own |
| SdioAggregation.RecordForm | drivers/aic8800/aic8800_fdrv/aicwf_sdio.c:829-858 | a record is its length, the type of data, the frame and zero bytes up to a multiple of four |
| SdioAggregation.TxBuffer.CountAndTail | drivers/aic8800/aic8800_fdrv/aicwf_sdio.c:757-769 | the count is zero exactly when the buffer is empty |
| SdioAggregation.TxBuffer.Append | drivers/aic8800/aic8800_fdrv/aicwf_sdio.c:821-863 | appends one record, header patched after padding, or says that it is copied past the end of the buffer |
| SdioAggregation.TxBuffer.SendAll | drivers/aic8800/aic8800_fdrv/aicwf_sdio.c:865-894 | whole blocks, decodable in spite of stale bytes, and an empty buffer |
| SdioCredits.SafeExactlyWhenCovered | drivers/aic8800/aic8800_fdrv/aicwf_sdio.c:679-684 | over all runs from an empty buffer: never more frames sent than the firmware has buffers, and buffers for those held, exactly when the thread never wakes up holding more than the register then allows |
| SdioCredits.OverspendsExactlyWhenShort | drivers/aic8800/aic8800_fdrv/aicwf_sdio.c:757-819 | over all runs, more frames are sent than the firmware granted exactly when a read, at a wake-up or by a retry, leaves some buffers but fewer than frames are held, and the next transfer comes before the next read |
| SdioCredits.HeldOverWakeUp | drivers/aic8800/aic8800_fdrv/aicwf_sdio.c:679-684 | a run in which this happens |
| SdioCredits.HeldFramesOverspend | drivers/aic8800/aic8800_fdrv/aicwf_sdio.c:786-789 | if it does, the next transfer exceeds the credits |
| SdioCredits.NextIsSafe | drivers/aic8800/aic8800_fdrv/aicwf_sdio.c:757-819 | one call keeps within the credits, re-reading the register only when nothing is held |
| SdioCredits.Sender.Send | drivers/aic8800/aic8800_fdrv/aicwf_sdio.c:757-819 | the call with its retries computes that step; no frame is lost, and a transfer has exactly the frames held; or it says that the frame is copied past the end of the buffer |
| SdioProgress.FirstCreditsCount | drivers/aic8800/aic8800_fdrv/aicwf_sdio.c:774-784 | a call goes by the first answer of the register that gives credits |
| SdioProgress.NothingWithoutCredits | drivers/aic8800/aic8800_fdrv/aicwf_sdio.c:774-784 | if none does, it takes and sends nothing |
| SdioProgress.QueueEmpties | drivers/aic8800/aic8800_fdrv/aicwf_sdio.c:679-684 | within two turns of the loop for each frame, and one more, all frames are sent, once each and in order |
| SdioProgress.HeldBackExactlyWhen | drivers/aic8800/aic8800_fdrv/aicwf_sdio.c:786-819 | a frame is held back exactly while there are credits for more, others wait behind it, and no command does |
| SdioCredits.RoomExactlyWhen | drivers/aic8800/aic8800_fdrv/aicwf_sdio.c:821-863 | over all runs that keep within the credits, with answers of the register and records up to given bounds: no frame is copied past the end of the buffer exactly when the product of the bounds is at most its length |
| SdioCredits.RoomFor64 | drivers/aic8800/aic8800_fdrv/aicwf_sdio.c:61-62 | for records of 1536 bytes that holds for answers up to 64, but not for all that the register can say |
| Alignment.AlignRounds | drivers/aic8800/aic8800_fdrv/aicwf_usb.c:667 | ALIGN rounds up to a multiple of a power of two |
| Alignment.AlignBy12288 | drivers/aic8800/aic8800_fdrv/aicwf_usb.h:90 | for 12288 it clears one bit that may count |
| UsbFragments.LastPiece | drivers/aic8800/aic8800_fdrv/aicwf_usb.c:600-607 | counting fragments is counting bytes |
| UsbFragments.PiecesFitExactlyWhen | drivers/aic8800/aic8800_fdrv/aicwf_usb.c:405-415 | all pieces of a packet are taken, the last as the last, exactly when ALIGN gave their number |
| UsbFragments.FragsOf12288 | drivers/aic8800/aic8800_fdrv/aicwf_usb.c:466 | with transfers of 12288 bytes ALIGN gives the right number exactly for lengths from 20481 to 28672, 32769 to 49152 and 53249 to 61440 |
| UsbFragments.TookIsFeed | drivers/aic8800/aic8800_fdrv/aicwf_usb.c:399-440 | where the number is right, the counters lead to the step meant, and nothing is written past the packet (exactly when something is: OverrunsExactlyWhen) |
| UsbFragments.TakenRunIsRun | drivers/aic8800/aic8800_fdrv/aicwf_usb.c:596-697 | with a power of two, all runs of the counters are the runs meant |
| UsbFragments.MessagesAreAsMeant | drivers/aic8800/aic8800_fdrv/aicwf_usb.c:596-697 | so are all runs on the message endpoint |
| UsbFragments.FragsBounds | drivers/aic8800/aic8800_fdrv/aicwf_usb.c:466 | for every transfer size ALIGN gives at most the number of fragments, and at least what rounding down gives |
| UsbFragments.OverrunsExactlyWhenOne | drivers/aic8800/aic8800_fdrv/aicwf_usb.c:405-421 | in every state that a run reaches without an overrun, the next fragment overruns the buffer exactly when it is full and the packet, of which one fragment is there, is counted as one |
| UsbFragments.OverrunsExactlyWhen | drivers/aic8800/aic8800_fdrv/aicwf_usb.c:399-522 | over all runs, for every transfer size: some fragment is written past the end of its packet exactly when a packet is begun that is counted as one fragment, and a full transfer follows |
| UsbFragments.PowersNeverOverrun | drivers/aic8800/aic8800_fdrv/aicwf_usb.c:399-522 | with a power of two it does not happen on any run |
| UsbFragments.OneFragmentAt12288 | drivers/aic8800/aic8800_fdrv/aicwf_usb.c:466 | with 12288-byte transfers, exactly longer packets of up to 20480 bytes are counted as one fragment |
| UsbFragments.OverrunsAt12288ExactlyWhen | drivers/aic8800/aic8800_fdrv/aicwf_usb.c:399-522 | so these are the packets with which it happens |
| UsbFragments.SecondDoesNotFit | drivers/aic8800/aic8800_fdrv/aicwf_usb.c:399-522 | two transfers with which it does |
| UsbFragments.PacketArrivesExactlyWhen | drivers/aic8800/aic8800_fdrv/aicwf_usb.c:399-522 | for every transfer size, a longer packet, cut up and sent, arrives exactly when its number of fragments is right |
| UsbFragments.PacketArrivesAt12288ExactlyWhen | drivers/aic8800/aic8800_fdrv/aicwf_usb.c:399-522 | with transfers of 12288 bytes, exactly the packets of those lengths arrive |
| UsbReassembly.FeedKeeps | drivers/aic8800/aic8800_fdrv/aicwf_usb.c:596-697 | what waits is always shorter than the packet and begins with its header; a packet handed on has the length its header gives |
| UsbReassembly.PacketForms | drivers/aic8800/aic8800_fdrv/aicwf_usb.c:650-690 | the three forms of packets, with their lengths |
| UsbReassembly.BegunExactlyWhen | drivers/aic8800/aic8800_fdrv/aicwf_usb.c:657-678 | a longer packet is begun exactly by a full transfer with its header, given memory |
| UsbReassembly.RunIsExplained | drivers/aic8800/aic8800_fdrv/aicwf_usb.c:596-697 | over all runs every packet handed on is made of consecutive transfers, all full but the last, disjoint and in order |
| UsbReassembly.PacketArrives | drivers/aic8800/aic8800_fdrv/aicwf_usb.c:596-697 | a packet cut into transfers is delivered once, byte for byte |
| UsbReassembly.PacketsArrive | drivers/aic8800/aic8800_fdrv/aicwf_usb.c:399-522 | so is any row of packets |
| UsbReassembly.Recovers | drivers/aic8800/aic8800_fdrv/aicwf_usb.c:626-641 | in every state a whole packet shorter than a transfer is delivered at once, exactly when it does not have the length that a waiting packet lacks |
| UsbFragments.Reassembler.Receive | drivers/aic8800/aic8800_fdrv/aicwf_usb.c:596-697 | one completed transfer on an endpoint of any size, in every state: the decisions by the counters, the packet handed on, and whether the copy goes past the end of the packet |
| UsbTxPool.HysteresisKept | drivers/aic8800/aic8800_fdrv/aicwf_usb.c:1643-1662 | stations of an access point are stopped at 64 pending frames and woken below 16 |
| UsbTxPool.UsbDev.BusTxData | drivers/aic8800/aic8800_fdrv/aicwf_usb.c:1680-1870 | a transmission on its own: lists, counters, pending counts and the low-water check |
| UsbTxPool.UsbDev.TxProcess | drivers/aic8800/aic8800_fdrv/aicwf_usb.c:1148-1199 | all posted buffers are submitted in order; the failed ones, in order, go to the end of the free list, each station has as many frames less as failed for it and goes on below 16, and the marks are not checked |
| UsbTxPool.UsbDev.TxComplete | drivers/aic8800/aic8800_fdrv/aicwf_usb.c:193-237 | a completion on its own, with the high-water check |
| UsbTxSystem.PlacesKept | drivers/aic8800/aic8800_fdrv/aicwf_usb.c:75-104 | every step of every call keeps each buffer in exactly one place and the counters right |
| UsbTxSystem.LowKept | drivers/aic8800/aic8800_fdrv/aicwf_usb.c:1857-1868 | and the low-water rule, although comparing and setting are two steps |
| UsbTxSystem.WakeKept | drivers/aic8800/aic8800_fdrv/aicwf_usb.c:228-236 | and the high-water rule |
| UsbTxSystem.PendingKept | drivers/aic8800/aic8800_fdrv/aicwf_usb.c:158-191 | and each pending count, which is the number of frames under way to the station |
| UsbTxSystem.RunKeeps | drivers/aic8800/aic8800_fdrv/aicwf_usb.c:75-237 | so do all interleavings |
| UsbTxSystem.OpenMeansFree | drivers/aic8800/aic8800_fdrv/aicwf_usb.c:1857-1868 | with open queues and no transmission between taking and comparing, a quarter of the buffers is free |
| UsbTxOrder.DequeuedInOrder | drivers/aic8800/aic8800_fdrv/aicwf_usb.c:75-104 | over all interleavings, buffers leave the post list in the order of posting, none skipped |
| UsbTxOrder.SubmittedInOrder | drivers/aic8800/aic8800_fdrv/aicwf_usb.c:1148-1199 | with one submitting thread, frames are submitted to the USB core in that order |
| UsbTxOrder.UsedInTurn | drivers/aic8800/aic8800_fdrv/aicwf_usb.c:75-104 | over all interleavings, the buffer that has been free longest is taken next |
| UsbTxSystem.QuietMeansOpen | drivers/aic8800/aic8800_fdrv/aicwf_usb.c:193-237 | when all calls are over, all buffers are free and no station is held back; if the queues are closed then, 50 or more submissions failed since a completion last compared |
| UsbTxStuck.FiftyFailuresCloseTheQueues | drivers/aic8800/aic8800_fdrv/aicwf_usb.c:1190-1197 | a run with 50 failures that ends with all calls over and the queues closed |
| UsbTxStuck.ClosedExactlyFromFifty | drivers/aic8800/aic8800_fdrv/aicwf_usb.c:1190-1197 | for every number of failures since a completion last compared: there is a run that ends with all calls over and the queues closed exactly when it is 50 or more |
| UsbTxStuck.ClosedUntilACompletionCompares | drivers/aic8800/aic8800_fdrv/aicwf_usb.c:228-236 | closed queues stay closed, whatever happens, as long as no completion compares |
| UsbTxStuck.OneFrameOpensThem | drivers/aic8800/aic8800_fdrv/aicwf_usb.c:193-237 | from any state with all calls over, one management frame and its completion open them |

## Left out

- UsbFragments.Reassembler.Receive: does not model what becomes of the memory behind a packet when a fragment is copied past its end; the contract says when that happens, and the counters go on.
- Md5Context.Context.Update: does not model inputs at or above the limit of LoopEndsExactlyBelowLimit, because the loop does not end on them.
- Deaggregation.RxBuffer.Process: does not model buffers that do not parse, because the loop does not end on them (EndsExactlyWhenParsed).
- Nat25Frame.Bridge.HandleFrame: does not model ARP, IPv6, IPX, AppleTalk and PPPoE frames, because these rewrite parts of the payload as well.
- SdioAggregation.TxBuffer.Append: does not model what becomes of memory when a record is copied past the end of the buffer; the contract says when that happens, and nothing about the state afterwards.
- SdioCredits.Sender.Send: does not model that either.
- IpcHost.TxRing.TxCfmHandler: does not model a callback that pushes and then refuses the id, which the driver's callback does not do.
- IpcHost.TxRing.TxdescPush: does not model a push without a free descriptor; callers ask TxdescGet first.
- CommandInvariant.EventKeeps: does not model Kill of a command that the firmware holds, because the invariant is then lost (CommandKill says what can follow).
- CommandInvariant.RunKeeps: does not model runs with such an event either; which of them lead to two commands at the firmware is in CommandKill.
- TcpAckFlow.ExpiryIsSafeWhenNothingIsHeld: does not give the converse, which is in TcpAckExpiry.
- UsbTxSystem.QuietMeansOpen: does not give the converse for each run, because runs with 50 failures may end either way; which numbers of failures allow it is in UsbTxStuck.
- TcpAckRuns.FreedAcksAreCovered: does not model runs in which an entry expires while it holds an ACK; TcpAckExpiry does, for one entry.
- Non-blocking commands and commands without confirmation, the low-level indication path, draining and de-initialising the command manager, and the callbacks of confirmations.
- Timers other than that of an entry of the ACK filter, and a handler of that one which is overtaken at the lock; parsing of TCP headers and options (the filter gets flow, number and window scale).
- The 4-tuple printing and the window computations that go by the window scale; `max_drop_cnt` set from outside.
- The entries of the NAT2.5 table are cells of an explicit map from addresses to entries, which shows dangling and freed pointers, but not the bytes of the C structures. `use_count` does not wrap at 32 bits.
- nat25_db_cleanup in the runs of Nat25Runs and Nat25Shortcut; what it does is the contract of Nat25Db.Vif.Cleanup.
- Aliasing of the input of MD5 with its own buffer.
- Allocation failures, except where they are a parameter (NAT2.5 insert, USB reassembly); bus errors, power states and suspend.
- The descriptor bytes that the device reads (`ready`, patterns), interrupts and DMA.
- The equality of `tx_pktcnt` with the queue length, which a full queue does not keep; `SdioCredits` takes it as a parameter.
- Message transmission over SDIO and its own credit check; the USB variants of de-aggregation.
- Stopping and restarting the USB bus; USB aggregation in both directions; the queues of single stations.
- Firmware and configuration loading, vendor commands, register and gain tables, version shims.
