# MMT-Probe in Dafny

Models of the parts of MMT-Probe whose behaviour is hardest to see from the code, and proofs of what they
guarantee over all inputs, all interleavings and all runs. `dafny verify dfyconfig.toml` checks everything.

## Dynamic reconfiguration

Three kinds of processes share one memory segment: a control process that reads commands from a socket, the main
process that supervises its children, and the processing children.

- `MmtBus.dfy`, `BusProtocol.dfy`: the one-slot publish/subscribe bus. `BusModel` gives each critical section as a
  function on the shared structure, `MmtBus.SharedBus` is the structure updated in place, and `BusProtocol`
  interleaves the critical sections of any number of processes.
- `BusDelivery.dfy` proves exactly-once delivery for the deployed case of a single poller, `BusPollers.dfy` and
  `BusOvertaking.dfy` say when more subscribers are all served and when not, `BusWaiting.dfy` whose answer a waiting
  publisher gets, and `BusStuck.dfy` when a closed bus can never be opened again.
- `Identities.dfy`, `Codec.dfy`, `CStrings.dfy`: the update command, from text to identity/length/value records in
  place, and back; `Rejections.dfy` says which texts are rejected and why, and `ServerCommands.dfy` takes an accepted
  one to the configuration.
- `Supervisor.dfy`, `Supervision.dfy`: the supervision loop and the command callback, which share the cell that
  holds the pid of the processing child, and the machine in which children exit at any time; a turn of the loop is
  made of steps of the machine.
- `DynamicConf.dfy`: all of it composed. A command reaches the configuration; the only way to lose one is an
  update that finds the cell empty after an exit without success, and that closes the bus for good.

## Reports

- `TcpRtt.dfy`, `RttProperties.dfy`, `RttStats.dfy`: round-trip tracking. Two heap-allocated linked lists refine
  two sequences, which refine two finite maps keyed by `seq + len + 1` modulo 2^32 (not by SEG.SEQ+SEG.LEN of
  section 3.4 of RFC 9293; in sender mode the numbers are the timestamps of section 3 of RFC 7323).
- `MicroFlow.dfy`, `MicroFlowProperties.dfy`, `Accounting.dfy`, `Traffic.dfy`: the micro-flow aggregate, the delta
  reports and the callbacks that choose between them; `Traffic` follows every packet through whole runs, and
  `PeriodReports.dfy` says what the output shows at any moment of them.

## Printers, parsers, arithmetic

- `Decimal.dfy`, `StringBuilder.dfy`: the digit-pair decimal printer against a simple one, and the bounded field
  builder. A field list with a separator stands for both macros; for STRING_BUILDER the separator is empty.
- `FileRetention.dfy`, `Retention.dfy`, `RetentionRuns.dfy`: names of sampled files, their byte order, and which
  samples survive one removal and whole runs.
- `License.dfy`, `LicenseProperties.dfy`: the licence generator and the decoder.
- `L4sFloat.dfy`: the small floating-point decoder.

`Common.dfy` holds the integer widths and the option type. In each group a function or a state machine on values says
what the code does, a class or method in the form of the code is proved to compute it, and the lemmas are about the
functions and machines.

## What the proofs found

- After the processing child has exited without success and been reaped, and before it is created again, an update is
  applied but answered with DO_NOTHING. The main process has then consumed it and nobody else polls the bus, so no
  command is accepted any more (`DynamicConf.UpdateAfterFailureIsMissed`, `DynamicConf.MissedForever`). No crash is
  needed: the restart that an update asks for is such an exit, so two updates in quick succession are enough
  (`DynamicConf.TwoUpdatesAreEnough`). The comment at that branch speaks of a processing process that is not running,
  which a cell of 0 means as well, but the test is only for negative cells.
- With more than one subscriber, a message that is published while a check is unfinished can be lost. It cannot if no
  check is unfinished, and that is the exact condition (`Overtaking.DeliveryExactly`).
- A publisher that waits for a reply can get the answer to somebody else's message (`WaitingPublishers.AnothersReply`).
  The server does not wait: it passes no place for the reply (src/modules/dynamic_conf/server.c:365-366).
- A numeric value with other characters is meant to be refused, but the branch returns 0, the null pointer that
  stands for a valid value (`Identities.NumberNeverRefused`). Most such values are then taken over as they are; for
  session-report.rtt-base, and for the list dump-pcap.protocols, the override refuses them and keeps the old one
  (`Identities.RefusedAfterValidation`). So it is the last accepted value that reaches the configuration, and
  `ServerCommands.LastGivenExactly` says when that is the last one given.
- An update of nothing but braces and a newline makes the scan leave the text, and nothing else does
  (`UpdateCodec.OverrunOnlyOnEmptyBraces`, `UpdateCodec.OverrunExactly`).
- The micro-flow packet test adds the download packets twice and never looks at the upload packets, so the packet
  threshold bounds what is pending only if every flow is reported at once (`MicroFlowProperties.PacketBoundExactly`).
  application_id is printed but never assigned.
- With a flow threshold of 2^32 - 1 the flow counter can wrap, and what is pending is lost at release. Sessions that
  are not restricted to micro flows can always bring that about (`MicroFlowProperties.ConservationExactly`); for micro
  flows it depends on the other thresholds as well: the counter wraps unseen either by packets, with bytes that add up
  to multiples of 2^32, which takes a packet threshold of at least 1, or by bytes, if the byte threshold of a micro flow
  and that of the report add up to 2^32 (`MicroFlowProperties.MicroConservationExactly`).
- The HTTP handler prints a line at a further request although the session may end as a micro flow: then it is in the
  aggregate and has lines too (`Traffic.PartitionExactly`).
- In sender mode the echo of the timestamp 2^32 - 1 becomes 0, which means that there is none
  (`RttStats.WrappedEchoIsIgnored`).
- A round-trip interval of zero is forgotten, because 0 also marks an empty minimum.
- append_number, given one digit and no room, takes the branch tree and finds 2 digits; the result, 0 and nothing
  written, is the right one.
- append_timeval prints 10^6 microseconds or more as zeros, where its comment promises the format "%u.%06u"
  (`SampleNames.MicrosExactly`). The byte order in which samples are removed is time order if and only if that does
  not happen and the seconds have as many digits (`SampleNames.MicrosMatter`, `SampleNames.DigitCountsMatter`).
- A sampled file is deleted instead of announced if the number of messages written to it is a multiple of 2^32
  (`RetentionRuns.LostExactly`).
- A licence address with character 29 is cut at that character. The generator takes 249 addresses, while a file of 82
  fits in the decoder's buffer only if the total has at most four digits, and one of 83 never does
  (`LicenseProperties.RoundTripExactly`).
- Eleven encrypted zeros are a licence that is accepted (`LicenseProperties.ZerosAreAccepted`).
- A file that is too short to be a licence yields the value 2, which is also MMT_LICENSE_EXPIRED.

## Model

| member | source | states |
|---|---|---|
| `MmtBus.SharedBus.constructor` | src/modules/dynamic_conf/mmt_bus.c:72-95 | creates the structure filled with zeros: three free slots, no message, reply code 0, which leaves the bus open |
| `MmtBus.SharedBus.Publish` | src/modules/dynamic_conf/mmt_bus.c:102-135 | refuses a message over 10004 bytes, or while the reply code is DO_NOTHING, or if the lock fails, changing nothing; otherwise stores it, closes the bus and marks every slot not consumed |
| `MmtBus.SharedBus.CopyMessage` | src/modules/dynamic_conf/mmt_bus.c:179-192 | the first slot of the caller decides: with a callback and not consumed, the whole message is copied, otherwise nothing is |
| `MmtBus.SharedBus.MarkConsumed` | src/modules/dynamic_conf/mmt_bus.c:195-206 | marks the slot consumed and writes the callback's result only if the reply code is still DO_NOTHING |
| `MmtBus.SharedBus.Subscribe` | src/modules/dynamic_conf/mmt_bus.c:226-276 | takes the first free slot, as consumed, unless the caller's own slot comes first or none is free |
| `MmtBus.SharedBus.Unsubscribe` | src/modules/dynamic_conf/mmt_bus.c:278-307 | frees the first slot of the caller, and only its pid, and says whether there was one |
| `BusProtocol.CountedStep` | src/modules/dynamic_conf/mmt_bus.c:116-307 | every step of any process keeps nb_subscribers equal to the number of occupied slots |
| `BusProtocol.SubscriberCountExact` | src/modules/dynamic_conf/mmt_bus.c:245-301 | after any interleaving nb_subscribers is the number of occupied slots, at most 3 |
| `BusProtocol.MessageAndReplyAreStable` | src/modules/dynamic_conf/mmt_bus.c:116-204 | from any moment of any interleaving: as long as no publish is accepted, the message stays as it is and a reply code that has left DO_NOTHING never changes again |
| `BusProtocol.ToldExactly` | src/modules/dynamic_conf/mmt_bus.c:97-135 | in every state: a publisher is told success if and only if its step records the acceptance of its message; any other code leaves everything as it is, one for a size over 10004, one while a reply is still awaited |
| `BusProtocol.SubscribedExactly` | src/modules/dynamic_conf/mmt_bus.c:245-276 | a subscriber is registered if and only if the first slot that is its own or free is free; it is told of a second call or of three others otherwise, and nothing changes then |
| `BusProtocol.UnsubscribedExactly` | src/modules/dynamic_conf/mmt_bus.c:290-305 | it is told whether it was a member; it is none afterwards, and nobody else is touched |
| `BusProtocol.HandedExactly` | src/modules/dynamic_conf/mmt_bus.c:179-192 | a check hands out the message if and only if the caller's first slot has a callback and has not consumed |
| `SinglePoller.SubscribedFirst` | src/modules/dynamic_conf/dynamic_conf.c:100-104 | creating the bus and subscribing the main process with a callback establishes the starting point of the delivery theorem |
| `SinglePoller.PublishKeepsInvariant` | src/modules/dynamic_conf/mmt_bus.c:116-128 | an accepted publish leaves the poller unconsumed on a closed bus, a refused one changes nothing: the invariant stays |
| `SinglePoller.CallbackKeepsInvariant` | src/modules/dynamic_conf/mmt_bus.c:192-206 | callback and mark keep it: the message under way is the accepted one and its answer becomes the reply |
| `SinglePoller.StepKeepsInvariant` | src/modules/dynamic_conf/mmt_bus.c:116-207 | every allowed step keeps the invariant: an open bus means the poller has consumed, and a check under way holds the current message |
| `SinglePoller.ExactlyOnce` | src/modules/dynamic_conf/mmt_bus.c:116-207 | with one polling subscriber registered before the first publish and locks succeeding, in every interleaving acceptances and callbacks strictly alternate, each callback gets the message accepted just before it, and the reply code the next publisher finds is that callback's own result |
| `SinglePoller.SuccessIsDelivered` | src/modules/dynamic_conf/mmt_bus.c:97-207 | in every interleaving of the deployed case: after success the publisher's message is the next delivery, and the next callback, if there is one yet, is that of the poller with this message; after any other code its step has changed nothing |
| `SinglePoller.NextCheckDelivers` | src/modules/dynamic_conf/mmt_bus.c:167-195 | the next check of the poller hands it a message that was accepted and not yet delivered |
| `ManyPollers.EveryRunKeepsInvariant` | src/modules/dynamic_conf/mmt_bus.c:116-301 | the invariant that tells, for every process, whether it was called since the last acceptance, holds after any run in which no publish is accepted between a copy and its mark |
| `ManyPollers.EachMessageServed` | src/modules/dynamic_conf/mmt_bus.c:183-207 | in such runs, between two consecutive acceptances: only the accepted message reaches callbacks, nobody is called twice, every process registered at the acceptance that stayed and polled is called exactly once, and the recorded reply is the first effective answer given by a callback to it |
| `ManyPollers.WindowIsDelivered` | src/modules/dynamic_conf/mmt_bus.c:183-207 | the same for the message accepted last, at every moment at which no check is unfinished |
| `Overtaking.QuietPublishDelivers` | src/modules/dynamic_conf/mmt_bus.c:116-207 | a message accepted while no check is unfinished is delivered so in all continuations, however checks, subscriptions and departures interleave, once all checks are finished |
| `Overtaking.CopiedIsOvertaken` | src/modules/dynamic_conf/mmt_bus.c:116-204 | for every state and every new message: if a process has copied a different one, a continuation hands it the old message after the new one was accepted |
| `Overtaking.AnsweredIsOvertaken` | src/modules/dynamic_conf/mmt_bus.c:116-204 | for every state and every new message: if a process has answered but not marked, a continuation takes its old answer for the reply, and it polls without being called |
| `Overtaking.DeliveryExactly` | src/modules/dynamic_conf/mmt_bus.c:116-207 | in every state that satisfies the invariant and in which the bus is open: every message that can be published next is delivered in all continuations if and only if no check is unfinished |
| `Overtaking.DeliveryInRuns` | src/modules/dynamic_conf/mmt_bus.c:116-207 | in particular in every state reached from the created bus by publishing only at such moments |
| `Overtaking.OvertakenMessageIsLost` | src/modules/dynamic_conf/mmt_bus.c:183-207 | a concrete run from the created bus: two subscriptions, then a publish that overtakes a check; a subscriber that polls is never given the new message, and the reply recorded for it answers the old one |
| `WaitingPublishers.EveryReplyTaken` | src/modules/dynamic_conf/mmt_bus.c:137-165 | in the quiet runs of ManyPollers, with any number of waiting publishers: a reply that one takes is the first effective answer to the message accepted last, whoever published it |
| `WaitingPublishers.OwnReply` | src/modules/dynamic_conf/mmt_bus.c:137-165 | it is the first effective answer to its own message if no other publish was accepted since, and that is exactly when its own is the last one accepted |
| `WaitingPublishers.AnothersReply` | src/modules/dynamic_conf/mmt_bus.c:137-165 | otherwise it can be the answer to another message: from every state of rest in which a publisher still waits, five steps lead there |
| `StuckBus.StaysExhausted` | src/modules/dynamic_conf/mmt_bus.c:116-271 | once every registered subscriber has consumed or is about to answer DO_NOTHING and the reply code is DO_NOTHING, this stays so in every continuation, new subscribers included |
| `StuckBus.ReopeningWorks` | src/modules/dynamic_conf/mmt_bus.c:183-206 | if one slot still has an effective answer to give, a concrete continuation of at most three steps reopens the bus |
| `StuckBus.StuckExactly` | src/modules/dynamic_conf/mmt_bus.c:116-271 | a closed bus is closed for good, in all continuations, if and only if no slot has anything left to give |
| `StuckBus.SoundStep` | src/modules/dynamic_conf/mmt_bus.c:116-301 | every step keeps pids distinct and every check under way at the slot of its process, with the message still to be marked |
| `StuckBus.ExhaustedStep` | src/modules/dynamic_conf/mmt_bus.c:116-271 | no single step, of whatever process, gives an exhausted bus anything to give again |
| `Identities.Lookup` | src/configure_override.c:22-30 | the first table entry of that name, or none if no entry has it |
| `Identities.RefusedAfterValidation` | src/configure_override.c:120-193 | a value that passed validation is refused by the override if and only if it is no name for the base of round trips, or is for a list that cannot be overridden |
| `Identities.NumberNeverRefused` | src/configure_override.c:75-84 | validation accepts what it is written to refuse if and only if a numeric parameter gets something that is no number |
| `UpdateCodec.Bytes16RoundTrip` | src/lib/memory.h:55-58 | two bytes hold a number modulo 2^16 |
| `UpdateCodec.Advance` | src/modules/dynamic_conf/server.c:161-162 | moves to the first newline or equals sign, and to the end of the memory if there is none |
| `UpdateCodec.Store` | src/modules/dynamic_conf/server.c:211-226 | appends identity, length and terminated value to what is already stored and touches nothing behind |
| `UpdateCodec.CutValue` | src/modules/dynamic_conf/server.c:185-233 | one value: empty, refused, too long, the last one, or stored with another line to come |
| `UpdateCodec.CutLine` | src/modules/dynamic_conf/server.c:160-183 | one line: no equals sign, unsupported name, or its value |
| `UpdateCodec.CutLines` | src/modules/dynamic_conf/server.c:156-236 | the loop over the lines, from any position: it terminates, and result, records and untouched bytes are those of the specification |
| `UpdateCodec.ParseUpdateParameters` | src/modules/dynamic_conf/server.c:112-237 | the in-place parser, with all its errors in their order, computes the specification `Parse` on the received text, leaves the rest of the output buffer alone, and overwrites its input with null characters only |
| `UpdateCodec.ParseCommandParameters` | src/modules/dynamic_conf/server.c:63-88 | the decoder loop terminates and yields the first `size` records of a record stream, leaving the other entries of the list alone |
| `UpdateCodec.ParseLineExact` | src/modules/dynamic_conf/server.c:157-233 | a well-formed `name=value` line yields exactly one record and the position of the next line |
| `UpdateCodec.EncodeExact` | src/modules/dynamic_conf/server.c:127-237 | the text printed from any list of valid settings parses without error into the records of these settings |
| `UpdateCodec.DecodeExact` | src/modules/dynamic_conf/server.c:63-88 | the records of any list of settings decode to their identities and terminated values in order, cut at the room of the list |
| `UpdateCodec.UpdateRoundTrip` | src/modules/dynamic_conf/server.c:63-237 | end to end: for every non-empty list of valid settings whose records fit in 10000 bytes, printing, parsing and decoding give back the same identities and values, the first `size` of them |
| `UpdateCodec.OverrunOnlyOnEmptyBraces` | src/modules/dynamic_conf/server.c:127-162 | for every input the scan stays inside the text, except for an opening brace, a newline and a closing brace with nothing between |
| `UpdateCodec.NoOverrun` | src/modules/dynamic_conf/server.c:157-233 | from any line of a text that ends with a newline the scan stays inside it |
| `Rejections.FirstFaultDecides` | src/modules/dynamic_conf/server.c:157-215 | after any valid lines, the first faulty line decides, whatever follows: the text is rejected for its reason, with the records of the lines before it |
| `Rejections.FaultyOrValid` | src/modules/dynamic_conf/server.c:157-215 | a line is faulty for exactly one of five reasons (no equals sign, unsupported name, empty value, value not allowed, no room), or it is that of a valid setting with room for its record |
| `Rejections.FrameExactly` | src/modules/dynamic_conf/server.c:112-150 | before any line: nothing received, no braces around, or no newline before the closing one, each told if and only if it is so |
| `UpdateCodec.EmptyBracesOverrun` | src/modules/dynamic_conf/server.c:136-162 | for that text the scan leaves the buffer whenever no newline and no equals sign lies behind the text in it |
| `UpdateCodec.OverrunExactly` | src/modules/dynamic_conf/server.c:127-162 | if the text fills its buffer, the scan leaves it if and only if the text is that one, with or without a final null character |
| `Supervisor.MainProcess.constructor` | src/main.c:448-462 | both cells ask for a child |
| `Supervisor.MainProcess.Create` | src/main.c:467-502 | a cell gets the new pid exactly when it asks for a child and its kind is managed |
| `Supervisor.MainProcess.Reaped` | src/main.c:518-540 | the first managed cell that holds the reaped pid gets -1 after a successful exit and 0 otherwise; the loop ends exactly when all managed cells are -1 |
| `Supervisor.MainProcess.ApplyUpdate` | src/modules/dynamic_conf/dynamic_conf.c:61-75 | decodes the parameters, overrides the configuration with those that the override does not refuse, in order, and asks for a restart if one of them is not the placeholder |
| `Supervisor.MainProcess.ReceiveMessage` | src/modules/dynamic_conf/dynamic_conf.c:25-98 | the callback: new cell, configuration, reply and signal for START, STOP, UPDATE and unknown commands, for every value of the pid cell |
| `Supervisor.MainProcess.Iterate` | src/main.c:465-551 | one turn of the loop: both creations, the reaped child, the break test and the check of the bus, in this order |
| `Supervision.SettleSlot` | src/main.c:526-530 | with distinct pids the settled cell is the one of the reaped child |
| `Supervision.StepKeeps` | src/main.c:465-551 | every possible step (fork, wait, command, sleep, exit of a child) keeps the invariant on cells, children and history |
| `Supervision.InvariantIsSafe` | src/main.c:465-551 | the invariant implies the safety properties of the next row |
| `Supervision.EveryRunIsSafe` | src/main.c:465-551 | in every run a cell holds a positive pid exactly when that child is alive or unreaped, there is at most one child of each kind, waitpid always has a child to wait for and never fails, and the loop breaks only after the last incarnation of every managed child exited successfully |
| `Supervision.CommandsAreHarmless` | src/modules/dynamic_conf/dynamic_conf.c:36-92 | no command forgets a child: START leaves a live pid alone, and the only pid ever signalled is that of the unreaped processing child |
| `Supervision.TurnIsSteps` | src/main.c:465-551 | one turn of the loop, as the method computes it, is the two creations, the wait and the reception of this machine: cells, configuration, break and reply agree, for all exits and commands, if no fork fails |
| `Supervision.EffectiveReplyExactly` | src/modules/dynamic_conf/dynamic_conf.c:36-97 | a command the server can build gets an effective reply if and only if it is not an update that meets a cell of 0 |
| `Supervision.CommandsToChild` | src/modules/dynamic_conf/dynamic_conf.c:36-97 | with a processing child: START is refused with 1, STOP interrupts exactly this child, an update of a parameter tells exactly this child to restart; nothing else changes |
| `Supervision.CommandsWithoutChild` | src/modules/dynamic_conf/dynamic_conf.c:36-97 | without one nobody is signalled: START asks for a child, STOP is refused with 1, an update is answered with 0 unless a child is asked for |
| `Supervision.StartCreatesChild` | src/main.c:465-502 | after START without a child, the next turn creates one as soon as fork succeeds, and its pid is in the cell |
| `Supervision.ReapedSettles` | src/main.c:518-540 | a reaped child is gone, its cell says whether it exited successfully, and the loop ends if and only if all managed children have |
| `Supervision.FailureRestarts` | src/main.c:465-540 | a processing child that exits without success is created again in the next turn |
| `Supervision.StoppedStays` | src/main.c:465-551 | a child that was stopped stays stopped in every run without START |
| `ServerCommands.EncodedIsRecords` | src/modules/dynamic_conf/server.c:157-236 | whatever the parser accepts is a non-empty stream of records of supported parameters with allowed values: ONLINE or OFFLINE for the input mode, true or false for a switch |
| `ServerCommands.AcceptedUpdateIsBuiltByServer` | src/modules/dynamic_conf/server.c:345-366 | every accepted update text becomes a message that the callback reads as a non-empty update without the placeholder identity, each of its parameters supported and with an allowed value |
| `ServerCommands.StartAndStopAreBuiltByServer` | src/modules/dynamic_conf/server.c:334-343 | START and STOP messages are read as such |
| `ServerCommands.OtherMessagesAreUnknown` | src/modules/dynamic_conf/dynamic_conf.c:93-97 | a message with any other number than 1, 2 and 3 is reported as unknown |
| `ServerCommands.LastAcceptedWins` | src/modules/dynamic_conf/dynamic_conf.c:67-75 | after an update every parameter has the last value that the override accepted, and every other one is as before |
| `ServerCommands.LastGivenExactly` | src/configure_override.c:95-235 | that is the last value given if and only if the override accepts that one, or accepts none while it was there before |
| `ServerCommands.UpdateReachesConfiguration` | src/modules/dynamic_conf/dynamic_conf.c:59-75 | from text to configuration: for every list of valid settings whose records fit, parser, message, decoder and callback together give each parameter the last accepted value among the first as many as the decoder keeps |
| `DynamicConf.ActKeeps` | src/main.c:465-551 | every act of the composed system (bus, operating system, the three stages of a check, sleep) keeps its invariant |
| `DynamicConf.EveryRunKeepsInvariant` | src/main.c:465-551 | hence every world of every run of control process, bus, main process and children satisfies it |
| `DynamicConf.MissedExactlyAfterFailure` | src/modules/dynamic_conf/dynamic_conf.c:77-97 | in every run a command is missed exactly when the callback meets an update while the cell is 0, and then the processing child has just been reaped after an exit without success, be it a crash or the restart of an update |
| `DynamicConf.MissedForever` | src/modules/dynamic_conf/mmt_bus.c:116-135 | after that no publish is accepted any more, whatever anybody does |
| `DynamicConf.NextCheckReopens` | src/main.c:542-547 | otherwise the next check of the main process carries out the waiting command, records its reply and reopens the bus, unless it is an update that meets a cell of 0 |
| `DynamicConf.UpdateAfterFailureIsMissed` | src/main.c:507-546 | it does happen: from every state with a waiting update and a running child, an exit of the child without success leads to the missed update within the turn |
| `DynamicConf.TwoUpdatesAreEnough` | src/main.c:418-546 | and without any crash: from every start, any two updates lead to a run that misses the second; the only child that exits in it was told to restart by the first |
| `TcpRtt.Locate` | src/modules/dpi/report/tcp_rtt.c:79-86 | stops at the first node whose 32-bit key is not above the new one, with the node before it |
| `TcpRtt.Refresh` | src/modules/dpi/report/tcp_rtt.c:89-94 | the present node keeps the more recent of both times |
| `TcpRtt.Splice` | src/modules/dpi/report/tcp_rtt.c:99-106 | the new node is linked between its neighbours, or becomes the head |
| `TcpRtt.InsertInto` | src/modules/dpi/report/tcp_rtt.c:77-107 | the linked list then stores the sequence with the segment inserted, or the time of the present one updated; nothing else in the heap changes, and new nodes are fresh |
| `TcpRtt.LocateAck` | src/modules/dpi/report/tcp_rtt.c:118-125 | stops at the first node whose key is the acknowledgement number, with the node before it |
| `TcpRtt.SkipRun` | src/modules/dpi/report/tcp_rtt.c:134-141 | counts, in 32 bits, and passes the longest adjacent chain that starts at the match |
| `TcpRtt.Unlink` | src/modules/dpi/report/tcp_rtt.c:143-147 | the chain leaves the list, whose other nodes stay linked in their order |
| `TcpRtt.RemoveFrom` | src/modules/dpi/report/tcp_rtt.c:117-148 | the linked list then stores the sequence without that chain; interval and counter are those of the match |
| `TcpRtt.Tracker.constructor` | src/modules/dpi/report/tcp_rtt.c:43-48 | two empty lists |
| `TcpRtt.Tracker.Store` | src/modules/dpi/report/tcp_rtt.c:77-107 | the list of the packet's direction gets the segment, the other one is left alone |
| `TcpRtt.Tracker.Remove` | src/modules/dpi/report/tcp_rtt.c:115-148 | the list of the other direction loses what is acknowledged, this one is left alone |
| `TcpRtt.Tracker.AddPacket` | src/modules/dpi/report/tcp_rtt.c:74-152 | the whole call on the heap refines the function on two sequences; both lists stay acyclic and apart from each other |
| `RttProperties.InsertKeepsOrder` | src/modules/dpi/report/tcp_rtt.c:77-107 | the list stays strictly descending; a new key adds one node and a known key none |
| `RttProperties.InsertUpdatesMap` | src/modules/dpi/report/tcp_rtt.c:88-107 | as a map: the key is added, or keeps the segment with the later of both times |
| `RttProperties.InsertKeepsLaterTime` | src/modules/dpi/report/tcp_rtt.c:88-107 | what is stored is the segment, or the one of that key already there with one of both times, none of them being later; every other key keeps its segment |
| `RttProperties.IntervalExactly` | src/modules/dpi/report/tcp_rtt.c:115-131 | the interval a packet yields, added to the moment of the segment it acknowledges, is the moment of the packet: in 64 bits, and exactly if the segment is not later and the interval fits |
| `RttProperties.NoInterval` | src/modules/dpi/report/tcp_rtt.c:109-151 | a packet that acknowledges nothing returns 0 and leaves the caller's interval and the other direction alone |
| `RttProperties.AcknowledgeKeepsOrder` | src/modules/dpi/report/tcp_rtt.c:115-148 | the list stays strictly descending, and what is left plus the counter is what was there |
| `RttProperties.RunIsLongestChain` | src/modules/dpi/report/tcp_rtt.c:128-141 | the counter is the length of the longest list-adjacent chain in which each next key is the previous sequence number |
| `RttProperties.AcknowledgeRemovesRun` | src/modules/dpi/report/tcp_rtt.c:128-148 | exactly the keys of that chain leave the map |
| `RttProperties.RunIsReachableSetExactly` | src/modules/dpi/report/tcp_rtt.c:128-148 | the removed keys are all keys reachable by links from sequence number to key if and only if the last removed segment does not start where a segment that stays ends |
| `RttProperties.RunIsReachableSet` | src/modules/dpi/report/tcp_rtt.c:128-148 | in particular when no stored segment wraps 2^32 and none overlaps another |
| `RttProperties.OverlapCutsRun` | src/modules/dpi/report/tcp_rtt.c:128-148 | with an overlapping segment in between, a reachable segment can stay |
| `RttProperties.CounterIsExact` | src/modules/dpi/report/tcp_rtt.c:109-151 | the returned 32-bit counter is the number of nodes removed, unless the list holds a node for each of the 2^32 keys and all of them are acknowledged at once |
| `RttProperties.RunsConserveSegments` | src/modules/dpi/report/tcp_rtt.c:74-152 | over every sequence of packets: both lists stay in order, and per direction the nodes inserted are those acknowledged plus those still listed, modulo 2^32 and exactly for less than 2^32 packets |
| `RttStats.SenderModeTracks` | src/modules/dpi/report/session_report.c:497-523 | based on the sender's timestamps, a packet is tracked if and only if it has both, the first is not 0 and the echo is not 2^32 - 1 |
| `RttStats.SenderModeMatchesEcho` | src/modules/dpi/report/session_report.c:497-523 | then a tracked packet acknowledges exactly the tracked packets whose timestamp it echoes |
| `RttStats.WrappedEchoIsIgnored` | src/modules/dpi/report/session_report.c:497-523 | the echo of the largest timestamp is not tracked, though the packet with that timestamp is |
| `RttStats.CaptorModeMatchesSegment` | src/modules/dpi/report/session_report.c:505-521 | based on the captured packets, a packet acknowledges exactly the segments whose sequence number, payload and 1 add up to its acknowledgement number |
| `RttStats.PreferSenderFallsBack` | src/modules/dpi/report/session_report.c:497-521 | the numbers of the TCP header stand in, each for itself, for a timestamp that is missing or 0 and for an echo that is missing or 2^32 - 1; the payload is left out in any case |
| `RttStats.SessionRtt.Record` | src/modules/dpi/report/session_report.c:523-536 | the four numbers of the other direction are updated, those of the packet's own direction are not |
| `RttStats.SessionRtt.Reset` | src/modules/dpi/report/session_report.c:244-253 | both directions start again from zero |
| `RttStats.CountAndSumExact` | src/modules/dpi/report/session_report.c:530-531 | for every history, counter and sum are the weighted count and weighted sum of the samples since the last report, modulo 2^64 |
| `RttStats.MaxExact` | src/modules/dpi/report/session_report.c:532-533 | max is the maximum of the samples |
| `RttStats.MinExactly` | src/modules/dpi/report/session_report.c:534-535 | min is the minimum if and only if no interval was zero, or the last one was: zero doubles as the mark for no sample |
| `RttStats.AverageBetween` | src/modules/dpi/report/session_report.c:161-166 | with positive intervals and no overflow, min <= reported integer average <= max |
| `RttStats.AverageExactly` | src/modules/dpi/report/session_report.c:161-166 | it is the integer part of the weighted mean: times the count, it is at most the weighted sum, and one more is not |
| `MicroFlow.MicroFlowReport.constructor` | src/modules/dpi/report/micro_flow_report.c:15-22 | all counters zero, nothing printed |
| `MicroFlow.MicroFlowReport.Update` | src/modules/dpi/report/micro_flow_report.c:40-66 | five 32-bit additions, the test as written (download packets twice), a line and a reset if it holds |
| `MicroFlow.MicroFlowReport.Release` | src/modules/dpi/report/micro_flow_report.c:68-79 | a line for every application with a non-zero flow counter |
| `MicroFlowProperties.PrintedPlusPending` | src/modules/dpi/report/micro_flow_report.c:40-66 | after any sequence of updates, printed plus pending counts of an application are those passed in, modulo 2^32 |
| `MicroFlowProperties.PassedExactly` | src/modules/dpi/report/micro_flow_report.c:44-49 | every column is the sum of that column over the sessions, in 32 bits, and the first one their number |
| `MicroFlowProperties.LineExactly` | src/modules/dpi/report/micro_flow_report.c:51-65 | a line is printed if and only if, with the session that has ended, bytes, twice the download packets or flows exceed their thresholds; it holds all that was pending, which is then zero |
| `MicroFlowProperties.PendingWithinThresholds` | src/modules/dpi/report/micro_flow_report.c:52-65 | after every update the pending 32-bit byte sum and flow count are within their thresholds |
| `MicroFlowProperties.PacketBoundExactly` | src/modules/dpi/report/micro_flow_report.c:54-54 | the pending packet count respects its threshold for all sequences of sessions with packets, each of a byte or more, if and only if every flow is reported at once |
| `MicroFlowProperties.ConservesIfRoom` | src/modules/dpi/report/micro_flow_report.c:40-79 | if the flow threshold is below 2^32 - 1, updates followed by release print, per application, what was passed in |
| `MicroFlowProperties.ConservationExactly` | src/modules/dpi/report/micro_flow_report.c:40-79 | every sequence of sessions with packets, each of a byte or more, is conserved if and only if the flow threshold is below 2^32 - 1 |
| `MicroFlowProperties.MicroConservationExactly` | src/modules/dpi/report/micro_flow_report.h:49-54 | every sequence of micro sessions is conserved if and only if the settings do not let them pass the counter's end unseen: a condition on the thresholds for flows, packets and bytes |
| `SessionReport.SessionStat.DoReport` | src/modules/dpi/report/session_report.c:61-242 | prints the nine 64-bit differences to what was reported last and remembers the current counters, or does nothing without new packets |
| `Dpi.DpiContext.DoReport` | src/modules/dpi/dpi.c:89-90 | one session is reported, its line is appended to the output, every other session keeps what it remembers |
| `Dpi.DpiContext.AddToAggregate` | src/modules/dpi/dpi.c:81-85 | only the aggregate changes, by one session |
| `Dpi.DpiContext.StartSession` | src/modules/dpi/dpi.c:31-61 | a session not known yet starts with nothing reported; a known one is left alone |
| `Dpi.DpiContext.PeriodReport` | src/modules/dpi/dpi.c:138-156 | a report if session reports are on and the session is not micro, otherwise nothing |
| `Dpi.DpiContext.EndSession` | src/modules/dpi/dpi.c:67-98 | a micro session goes to the aggregate, any other one gets a last report; the session is then forgotten |
| `Traffic.ReportTelescopes` | src/modules/dpi/report/session_report.c:61-242 | a report brings the sum of all printed differences from the last remembered counters to the current ones, in 64-bit arithmetic, for counters that stay below 2^64 |
| `Traffic.MicroIsLost` | src/modules/dpi/report/micro_flow_report.h:49-54 | with one more packet a session that is not micro stays not micro |
| `Traffic.StepKeeps` | src/modules/dpi/dpi.c:55-156 | packets, statistics periods, HTTP requests and session ends keep the accounting invariant of all sessions, live and ended |
| `Traffic.EveryRunKeepsInvariant` | src/modules/dpi/dpi.c:55-156 | hence every world of every run satisfies it |
| `Traffic.EverySessionIsAccounted` | src/modules/dpi/dpi.c:67-156 | in every run an ended session either is micro, with no line but those of the HTTP handler, or its printed differences sum up exactly to its final volume, payload and packet counters |
| `Traffic.RequestShows` | src/modules/dpi/report/session_report_web.c:109-113 | every further HTTP request of a session leaves a line of it in the output |
| `Traffic.PartitionExactly` | src/modules/dpi/report/session_report_web.c:109-113 | in every run an ended micro session has no line if and only if the events hold no further HTTP request of it |
| `Traffic.EitherAggregateOrReports` | src/modules/dpi/dpi.c:67-156 | without such a request a session is entirely in the aggregate or entirely in the reports |
| `Traffic.HttpBreaksPartition` | src/modules/dpi/report/session_report_web.c:109-113 | with one it can be in both: a concrete run, for all settings in which one packet makes a micro flow |
| `Traffic.AggregateIsConserved` | src/modules/dpi/dpi.c:276-280 | over every run followed by release, the aggregate prints per application what the micro sessions brought |
| `Traffic.ReportsCarryPackets` | src/modules/dpi/report/session_report.c:61-242 | from packets to lines: the lines of an ended session that is not micro sum up to what its packets carried |
| `PeriodReports.PeriodShows` | src/modules/dpi/dpi.c:138-156 | in every run, right after the statistics timer has reached a session: with session reports, and if it is no micro flow so far, its lines add up to what its packets have carried, and there is one more line if and only if packets came since the last one; otherwise nothing is printed |
| `PeriodReports.RequestUpdates` | src/modules/dpi/report/session_report_web.c:109-113 | a further HTTP request brings the lines up to date in the same sense, micro flow or not |
| `PeriodReports.EndShows` | src/modules/dpi/dpi.c:67-98 | and so does the end of a session that is no micro flow, with session reports |
| `PeriodReports.NoPacketNoLine` | src/modules/dpi/report/session_report.c:64-70 | the second of two periods without a packet in between prints nothing |
| `PeriodReports.AllReportedWithoutMicroFlows` | src/modules/dpi/dpi.c:67-98 | without micro flows every ended session is in the reports with everything its packets carried |
| `PeriodReports.MicroExactly` | src/modules/dpi/report/micro_flow_report.h:49-54 | a session is a micro flow if and only if there are micro flows and its bytes or its packets are within their threshold |
| `Decimal.RoundTrip` | src/lib/string_builder.h:150-277 | the digits of a number, parsed, are the number, and they have no leading zero |
| `Decimal.OnlyText` | src/lib/string_builder.h:150-277 | and they are the only such text |
| `AppendNumber.CountDigits` | src/lib/string_builder.h:190-255 | the branch tree yields the exact digit count of every 64-bit value, and 2 for a single digit |
| `AppendNumber.Append` | src/lib/string_builder.h:150-277 | with room, exactly the bytes of the number become its decimal digits; without, nothing is written and 0 is returned |
| `AppendNumber.WriteBackwards` | src/lib/string_builder.h:260-274 | the loop over digit pairs and the loop over digits fill exactly these bytes |
| `AppendNumber.NumberExact` | src/lib/string_builder.h:257-276 | what is written parses back to the value, or is nothing |
| `AppendNumber.TwentyDigits` | src/lib/string_builder.h:190-205 | twenty bytes are enough for every 64-bit value, and needed exactly from 10^19 on |
| `Appending.AppendChar` | src/lib/string_builder.h:29-34 | one byte if there is room |
| `Appending.AppendStringWithoutQuote` | src/lib/string_builder.h:44-57 | the text, cut at the room |
| `Appending.AppendString` | src/lib/string_builder.h:67-89 | the quoted text, cut so that both quotes fit, or nothing in less than two bytes |
| `Appending.AppendHex` | src/lib/string_builder.h:99-107 | two hexadecimal digits or nothing |
| `Appending.AppendMac` | src/lib/string_builder.h:117-142 | the quoted address of 19 bytes or nothing |
| `Appending.AppendIPv4` | src/lib/string_builder.h:286-299 | the dotted address, if there are 16 bytes of room, or nothing |
| `Appending.WriteMicros` | src/lib/string_builder.h:324-340 | zeros first, then the number over their end; six zeros if the number has more than six digits |
| `Appending.AppendTimeval` | src/lib/string_builder.h:309-343 | seconds, dot and six digits of microseconds; the seconds alone if there is no room for the rest; nothing below 12 bytes |
| `Fields.FitExactly` | src/lib/string_builder.h:29-343 | every field writes at most its room and at most its rendering, and all of its rendering if and only if there is the room it needs, which is at most nine bytes more than it writes |
| `Fields.CutExactly` | src/lib/string_builder.h:29-343 | with less room: of a text as much as fits, between its quotes if it has them, of a time the seconds, and nothing of any other field |
| `Builder.AddField` | src/lib/string_builder.h:357-357 | a field is written behind the text so far if there is any room |
| `Builder.AddSeparator` | src/lib/string_builder.h:359-359 | the separator, cut at the room, behind the text so far |
| `Builder.Build` | src/lib/string_builder.h:378-399 | for any list of fields: the terminator is inside the buffer, bytes outside of [valid, dst_size) are untouched, and the text is what the fields write in their remaining room |
| `Builder.BuiltExactly` | src/lib/string_builder.h:357-399 | the text is the separator-joined rendering of the fields if and only if each of them has the room it needs; otherwise it is shorter |
| `Builder.NineMore` | src/lib/string_builder.h:357-399 | nine bytes more than the joined rendering are always enough |
| `Reading.NumbersReadBack` | src/lib/string_builder.h:357-399 | a line of numbers joined by a separator reads back as these numbers |
| `Reading.IPv4ReadsBack` | src/lib/string_builder.h:286-299 | a dotted address reads back as its four bytes, which determine it |
| `Reading.HexReadsBack` | src/lib/string_builder.h:99-107 | two hexadecimal digits read back as the byte |
| `Reading.MacReadsBack` | src/lib/string_builder.h:117-142 | a quoted address reads back as its six bytes in order, separated by colons |
| `SampleNames.StampOrder` | src/lib/tools.h:68-73 | byte order of the printed times is is_after order, if the microseconds are below 10^6 and the seconds have as many digits; what follows in the name counts only for equal times |
| `SampleNames.MicrosExactly` | src/lib/string_builder.h:324-342 | the microseconds read back if and only if they are less than 10^6; otherwise they are printed as zeros |
| `SampleNames.MicrosMatter` | src/lib/string_builder.h:324-342 | among seconds with as many digits, the order of the printed times is time order, compared with all proper times, if and only if the time is proper itself |
| `SampleNames.DigitCountsMatter` | src/lib/tools.h:68-73 | for all digit counts from 1 to 20: byte order is time order for all proper times with so many digits in their seconds if and only if both counts are the same |
| `FileOutput.MakePath` | src/modules/output/file/file_output.c:121-129 | the path is what the builder writes in 254 bytes |
| `FileOutput.Output.constructor` | src/modules/output/file/file_output.c:140-154 | an output begins with its first file |
| `FileOutput.Output.CreateNewFile` | src/modules/output/file/file_output.c:113-138 | the new path, and for output 1 the removal of old samples |
| `FileOutput.Output.RemoveOldSampledFiles` | src/modules/output/file/file_output.c:50-111 | the buffer loop deletes the first max(0, n - retains) listed semaphores and their csv files, leaving out names too long for the buffer |
| `FileOutput.Output.CreateSemaphoreFile` | src/modules/output/file/file_output.c:157-180 | a semaphore beside the csv file, or no csv file if it has no message |
| `FileOutput.Output.Flush` | src/modules/output/file/file_output.c:183-197 | a sampled output closes its file, announces it and opens the next; an output without a file does nothing |
| `FileOutput.Output.Release` | src/modules/output/file/file_output.c:199-217 | closes and announces the file; output 0 removes old samples |
| `FileOutput.Unlink` | src/modules/output/file/file_output.c:86-101 | from the name buffer, first the semaphore's path is deleted and then, with the extension cut off in place, that of its csv file |
| `Retention.FilterExactly` | src/modules/output/file/file_output.c:39-43 | a name with the extension is accepted if and only if the extension does not occur before |
| `Retention.SampleIsLoaded` | src/modules/output/file/file_output.c:39-43 | the semaphore of a sample is accepted if and only if the configured file name does not contain the extension |
| `Retention.FolderEndsWithSlash` | src/modules/output/file/file_output.c:65-71 | old samples are looked for in the configured directory, with one slash at its end |
| `Retention.RemovalExactly` | src/modules/output/file/file_output.c:73-104 | exactly the first n semaphores and their csv files leave the disk, and the listing is then the rest |
| `Retention.NamesInTimeOrder` | src/modules/output/file/file_output.c:55-55 | of two sample names in byte order, with equally long seconds, the second is not older |
| `Retention.RemovalKeepsNewest` | src/modules/output/file/file_output.c:50-104 | of the samples listed, as many as are to be retained stay, all others are gone with their csv files, and no deleted one is newer than one that stays |
| `RetentionRuns.PathExactly` | src/modules/output/file/file_output.c:121-173 | paths that leave 13 bytes of the name buffer are built completely |
| `RetentionRuns.CloseExactly` | src/modules/output/file/file_output.c:157-180 | closing a file announces it if its semaphore can be created, and deletes it if the number of its messages is a multiple of 2^32 |
| `RetentionRuns.FlushKeepsNewest` | src/modules/output/file/file_output.c:183-197 | one flush, whether fopen succeeds or not: announced is exactly the closed file, and the folder then lists exactly the newest of all names announced so far |
| `RetentionRuns.EveryRunKeepsInvariant` | src/modules/output/file/file_output.c:113-225 | over messages and flushes of output 1 and files of any other outputs: a name that is no longer listed has at least as many newer ones listed as are to be retained |
| `RetentionRuns.BeginsWithNewest` | src/modules/output/file/file_output.c:140-154 | creating the output, in a folder with any old samples, leaves the newest of them |
| `RetentionRuns.EveryFlushKeepsNewest` | src/modules/output/file/file_output.c:50-197 | after every flush of every such run the folder lists exactly the newest names it ever listed, as many as are to be retained, whatever the clock does |
| `RetentionRuns.GoneIsNotNewer` | src/modules/output/file/file_output.c:50-104 | in terms of time: no sample that is gone is newer than one that stays, for proper times with equally long seconds |
| `RetentionRuns.MessagesAreCounted` | src/modules/output/file/file_output.c:219-225 | between two flushes the messages written are counted one by one, whatever other outputs do |
| `RetentionRuns.LostExactly` | src/modules/output/file/file_output.c:157-225 | a file is not announced if and only if the number of messages written to it is a multiple of 2^32 |
| `RetentionRuns.NewFileIsThere` | src/modules/output/file/file_output.c:113-138 | the new file of a flush is on the disk, unless an old sample has the very same name |
| `RetentionRuns.OtherOutputsRemoveNothing` | src/modules/output/file/file_output.c:113-138 | outputs other than the first one just open their new file |
| `RetentionRuns.ReleaseExactly` | src/modules/output/file/file_output.c:199-217 | the last file of the output is announced, or deleted for a multiple of 2^32 messages, when it is released |
| `RetentionRuns.ReleaseKeepsNewest` | src/modules/output/file/file_output.c:199-217 | output 0 leaves exactly the newest samples when it is released |
| `RetentionRuns.IdleOrNotSampled` | src/modules/output/file/file_output.c:183-225 | without an open file neither message nor flush does anything, and an output that is not sampled keeps its file |
| `KeyGenerator.ParseOptions` | key_generator.c:56-80 | empty addresses, a length that does not match the number of dashes, a date that is not ten characters long, or the number of addresses |
| `LicenseProperties.OptionsExactly` | key_generator.c:56-80 | any texts joined by dashes are taken for as many addresses if and only if they have seventeen characters each on average, and the date has ten |
| `LicenseProperties.AddressesAreCounted` | key_generator.c:56-80 | in particular n addresses of seventeen characters for n |
| `LicenseProperties.AddressesAreStripped` | key_generator.c:132-143 | six pairs of characters each, separated by colons, become twelve characters each, in their order |
| `KeyGenerator.Snprintf` | key_generator.c:113-128 | a text is appended, cut at the room left, and terminated |
| `KeyGenerator.WriteHead` | key_generator.c:109-128 | year, month, day and the count of at least three digits |
| `KeyGenerator.WriteAddresses` | key_generator.c:132-150 | the addresses without separators are appended and summed up, unless they reach the end of the buffer |
| `KeyGenerator.EncryptInPlace` | key_generator.c:86-92 | every character up to the null character is replaced, no other |
| `KeyGenerator.WriteLicense` | key_generator.c:94-163 | the file is the encrypted layout of date, count, addresses and checksum, up to its first null character |
| `License.ReadKey` | src/modules/license/license.c:92-99 | the decoded file, terminated |
| `License.CopyAddresses` | src/modules/license/license.c:130-135 | the addresses are copied and their characters summed up as signed numbers |
| `License.DecodeLicenseFile` | src/modules/license/license.c:79-147 | all outcomes of the decoder, and the addresses in the caller's buffer |
| `LicenseText.DecryptEncrypt` | key_generator.c:86-92 | decoding undoes the encryption of every byte; exactly character 29 is encrypted to a null character |
| `LicenseText.StrtolExactly` | src/modules/license/license.c:107-124 | a number is read up to the first character that is no digit, with its sign |
| `LicenseProperties.KeyDecodes` | src/modules/license/license.c:107-146 | the layout of up to 249 addresses of twelve characters decodes to the same date, count and addresses, unless the total is negative |
| `LicenseProperties.CutKeyIsModified` | src/modules/license/license.c:107-128 | a file cut at character 29 still has its date and count, but too few addresses |
| `LicenseProperties.HowMany` | key_generator.c:132-150 | the generator's buffer takes addresses of twelve characters if and only if there are at most 249 |
| `LicenseProperties.LostInTheWay` | src/modules/license/license.c:92-128 | with a character 29 in the addresses the file is cut there, and counts as modified if it still fits in the decoder's buffer |
| `LicenseProperties.NothingInTheWay` | src/modules/license/license.c:92-146 | without one, the length of the file and the sign of the total decide between accepted, modified and leaving the buffer |
| `LicenseProperties.RoundTripExactly` | key_generator.c:109-159 | for every date of digits and every number of such addresses that the generator takes, the written file is accepted with the same contents if and only if no address character is 29, the total is not negative and the file has less than 1000 bytes |
| `LicenseProperties.EightyOneFit` | src/modules/license/license.c:82-99 | 81 addresses always fit, unless the total is negative |
| `LicenseProperties.AsciiRoundTrip` | src/modules/license/license.c:92-146 | for up to 81 addresses of ASCII characters it is accepted if and only if no character is 29 |
| `LicenseProperties.TamperExactly` | src/modules/license/license.c:130-144 | other addresses of the same length in an accepted file are accepted if and only if the sum of their characters is the same, and count as modified otherwise |
| `LicenseProperties.SingleChangeIsNoticed` | src/modules/license/license.c:130-144 | one byte changed anywhere in the addresses of an accepted file makes it modified |
| `LicenseProperties.OutcomesExactly` | src/modules/license/license.c:86-128 | a missing file, one of less than 11 bytes, one of 1000 or more, a negative count and too few addresses each have their outcome, for every file |
| `LicenseProperties.ZerosAreAccepted` | src/modules/license/license.c:98-146 | eleven encrypted zeros are accepted: no date, no address and no checksum |
| `L4sFloat.LimitFits` | src/modules/dpi/report/session_report_l4s.c:60-64 | for the widths that fit, the shifts of mask and threshold are exact in 32 bits |
| `L4sFloat.NextValue` | src/modules/dpi/report/session_report_l4s.c:64-68 | from one code to the next the value grows by 1 below 2^m and by a power of two given by the exponent above, also across exponents |
| `L4sFloat.StrictlyIncreasing` | src/modules/dpi/report/session_report_l4s.c:64-68 | a greater code has a greater value |
| `L4sFloat.RelativePrecision` | src/modules/dpi/report/session_report_l4s.c:64-68 | from 2^m on, the distance to the next value is at most the value divided by 2^m |
| `L4sFloat.Bracketed` | src/modules/dpi/report/session_report_l4s.c:64-68 | every number below the last value lies between a code and the next |
| `L4sFloat.DecoderExactly` | src/modules/dpi/report/session_report_l4s.c:58-69 | in 32-bit arithmetic the decoder computes that value of the masked code for all widths that fit |
| `L4sFloat.Fl2IntOrder` | src/modules/dpi/report/session_report_l4s.c:58-69 | hence fl2int is strictly increasing, the identity below 2^(m+1), and its gaps are those of the two rows above |
| `L4sFloat.IdIsDetermined` | src/modules/dpi/report/session_report_l4s.c:72-77 | the decoded pair determines the 16-bit identification, and more in its upper five bits means more drops |
| `L4sFloat.IdExactly` | src/modules/dpi/report/session_report_l4s.c:72-77 | the delay is the lower eleven bits, the drops are the value of the upper five |

## Left out

- MmtBus.SharedBus.Subscribe: a process that subscribes twice is reported and the program exits while it holds the mutex; here the result is CalledTwice and nothing changes.
- MmtBus.SharedBus.Publish: a bus that was not created; in the interleavings of BusProtocol a lock fails only in the second critical section of a check, the step MarkLockFails.
- WaitingPublishers.EveryReplyTaken: runs in which a publish is accepted only while no check is unfinished; that a publisher waits for ever on a stuck bus is what StuckBus says.
- UpdateCodec.ParseUpdateParameters: replies to the control client; every error is a value instead.
- UpdateCodec.ParseCommandParameters: record streams that reach past their buffer; the server builds none, which ServerCommands proves.
- Supervisor.MainProcess.ReceiveMessage: conversion of accepted values to their types; the configuration is a map from identity to the accepted text.
- Supervisor.MainProcess.Iterate: abort on a failing fork or waitpid is a final place of Supervision; switching dynamic-config.enable at run time is excluded.
- TcpRtt.Tracker.AddPacket: freeing nodes is their absence from the list.
- RttStats.SessionRtt.Record: extraction of the attributes from the packet; the retransmission counters beside it.
- MicroFlow.MicroFlowReport.Update: last_time, which is only printed; protocol identifiers are numbers below the size of the table.
- SessionReport.SessionStat.DoReport: the other columns of the line, and application-specific parts.
- Dpi.DpiContext.EndSession: HTTP reconstruction, and statistics that are compiled out.
- Traffic.EverySessionIsAccounted: DPI does not use a session identifier twice in a run, and its counters stay below 2^64.
- Appending.AppendIPv4: a little-endian machine.
- Appending.AppendTimeval: seconds of more than 12 digits, for which an assertion aborts the program.
- Builder.Build: at most 89 fields in the macros, any number here.
- FileOutput.Output.RemoveOldSampledFiles: scandir is a parameter that lists the accepted names in byte order; reports of failing deletions.
- FileOutput.Output.Flush: whether fopen succeeds is a parameter; the folder does not change between the listing and the deletions.
- RetentionRuns.EveryFlushKeepsNewest: a directory that ends with a slash, a file name without the semaphore's extension in it, and paths that fit in the name buffer; release, and a scandir that fails.
- License.DecodeLicenseFile: files of 1000 bytes or more and negative counts, for which the code leaves its buffers; their result is Undefined.
- KeyGenerator.WriteLicense: more than one use of an option, and reading the command line.
- L4sFloat.DecoderExactly: widths for which a shift leaves 32 bits.
- The wall clock in the licence check, and the discovery of host addresses.
- Sockets, mmap, signals, fork and the file system themselves; they are steps or parameters.
- Loading the configuration, the application reports, Kafka, MongoDB, Redis, DPDK, the security module and the older implementation.
