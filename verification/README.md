# CDC2NET: a verified model

CDC2NET bridges serial devices (a USB stick, or a radio module on the built-in UART) to TCP clients.
This project models the parts of its firmware whose correctness spans many functions or many steps,
and proves what they promise. It is written for Dafny 4.11; `dafny verify dfyconfig.toml` checks the whole of it.

| module | subject |
|---|---|
| `TelnetCodec`, `TelnetPrinter`, `TelnetOptions` | the telnet byte machine fed by recv chunks, the sending side, the round trip between them, and the answers to option requests |
| `ComPort` | RFC 2217 COM-PORT-OPTION commands, and how far a reply is true of the UART |
| `ClientTable`, `Replay`, `Reconnect` | the four client slots with their single controller; the bytes kept across a radio reboot; both over one history |
| `NorFlash`, `RadioStage`, `RadioSync`, `RadioStation` | crash-safe staging of a radio image, the self-healing flash of the radio, and both over one life |
| `UsbTeardown` | the handshake between the USB hub thread, the stick task and transmit callers |
| `TxLock` | the bridge's soft lock between sinks |
| `SearchLifecycle`, `Querier` | an mDNS search from creation to deletion, with its timer and action queue; the code's walks over the list of searches |
| `DnsName`, `TxtRecord` | compressed DNS names and TXT record data |
| `RebootScanner` | recognising the boot banner across chunk borders |
| `CulDfu` | flashing an AVR stick through its DFU boot loader |
| `SerialCfg` | the eight-slot line-coding table against a map |
| `LogRing`, `LogExcerpt`, `LogReader` | the log ring against an unbounded log, its JSON excerpt, and what a reader makes of it |

Code that changes fields, buffers or tables is modelled by classes, arrays and loops that are proved
against specification functions; the lemmas then speak about those functions. Protocols between tasks
are state machines whose steps are the critical sections, and their lemmas speak about every run.

## Assumptions about the surroundings

- Flash: an erased byte is 0xFF and a write ANDs. Erase and write proceed in ascending order; the power
  may fail after any erased sector and after any written byte. The 4 KB commit write of the staging
  handler and the erase of one sector are all or nothing.
- The MD5 comparison with the radio is equality of contents; whether the deciding comparison and the final
  verification could be carried out are the parameters `compared` and `finished`.
- Opening a USB device by name fails once its removal has begun, a port reads as disconnected only once the
  removal of an instance on it has begun, and names are unique among the devices that are present. Searches
  and USB instances are never given a reused identity, and a search's notifier does not itself delete the
  search.
- A DFU command whose status poll reports OK was carried out completely; a command that fails may have
  been carried out for any leading part.
- Clocks, recv and send results, driver failures and lock availability are parameters.

## Where the code differs from its comments or from what one expects

- `firmware/main/sink_tcp.c:616-632`: the comment says that a short send drops the rest of the fan-out.
  Only a negative result does; a short count loses the tail of that one call and sending goes on
  (`TelnetPrinter.ClientSend`). The peer gets the source's bytes exactly when no count is short
  (`TelnetPrinter.FanoutReadsBack`); a lone IAC left behind falsifies what follows
  (`TelnetPrinter.ShortCountMisleads`).
- `firmware/main/webui.c:600-604` and `:650-656`: the check of the chip id compares with the image that is staged.
  An upload that is cut behind its erase has blanked that image's first byte and so lifts the check for the
  next one (`RadioStage.HandleUpload`, `RadioStage.HandleUploads`).
- `firmware/main/sink_tcp.c:198-199`: the comment calls the answers to option requests loop-safe. That rests
  on the peer alone: two ends that answer alike never stop over an option both agree to
  (`TelnetOptions.EndlessExactly`).
- `firmware/main/radio_flash.c:198-269`: an interrupted rewrite is always noticed if the radio did not
  match before. If a radio in sync is rewritten because the comparison failed for another reason, and
  that rewrite is cut before it reaches 0x20000, the radio has lost its boot loader and looks in sync
  from then on (`RadioSync.HealingTestIsExact`, `RadioSync.LostBootLoaderLooksHealthy`).
- `firmware/main/radio_flash.c:198-217`: a newly staged image that differs from the radio's only below 0x20000,
  in its boot loader say, is reported as in sync and never flashed: a boot that ends well leaves the whole
  image on the radio exactly when it was there or the comparison failed (`RadioSync.Sync`).
- `firmware/main/webui.c:584-598` against `firmware/main/radio_flash.c:116-141`: the smallest image the upload
  accepts is committed and then refused at every boot (`RadioStage.CommittedThenAccepted`).
- `firmware/main/source_usb_cherry.c:165-204`: after the stop routine has cleared the shared handle, the
  stick task may publish it once more and a caller may enter with it; what protects the device is the
  wait for the idle flag. It happens exactly when the stick task stands between opening and publishing at
  the moment of the clear (`UsbTeardown.EntryAfterClearExactly`).
- `firmware/main/sink_tcp.c:32-33`: the line coding reverts when the controller leaves only if it still owned
  the line then. A drop of all clients takes ownership away first, so no revert follows
  (`ClientTable.Table.Cleanup`). A dropped client keeps its slot until its task ends, and may take the
  line meanwhile (`ClientTable.DroppedClientCanTakeTheLine`); whose sessions are dead is said exactly by
  `ClientTable.DeadExactly`.
- `firmware/main/sink_tcp.c:707-728`: dropped clients hold their slots until their tasks end, and count as
  listeners until then. What the radio says in that time goes to dead sockets and is not kept for the next
  client (`Reconnect.KeptOnlyAfterTheLastClose`).
- `firmware/main/serialcfg.c:88-89`: a blob that was set and whose commit failed is reported as a failure and
  may be there all the same (`SerialCfg.Run`).
- `firmware/main/serialcfg.c:65-99`: a key longer than 32 characters is stored cut and compared whole, so it is
  never found again and may occupy several slots (`SerialCfg.StoredIsFoundIffKeyFits`,
  `SerialCfg.SameLongKeyTwice`).
- `firmware/main/source_uart.c:133-155`: the time of the last hit starts at zero, so a banner in the first
  two seconds after boot is ignored (`RebootScanner.DropsAreSpaced`).
- `firmware/main/source_uart.c:159-196`: mark and space parity and 1.5 stop bits are reported to the client
  but not put on the wire, and a setting that fails halfway leaves the wire changed
  (`ComPort.ReportIsTrueOfTheWire`, `ComPort.FailedApplyAndTheWire`).
- `firmware/main/bridge.c:217-230`: in AUTO mode a claim buys no grace period before the claimant's own
  transmission has succeeded: another sink is admitted exactly after five seconds without anybody's
  success (`TxLock.AdmittedExactlyAfterSilence`, `TxLock.ClaimIsNoShield`). Until a first success the time
  counts from boot, so within the first five seconds a claim does shield (`TxLock.ClaimShieldsAfterBoot`).
- `firmware/components/mdns/mdns_utils.c:18-73`: a name is accepted without a terminator exactly when the last
  segment of its chain of pointers runs off the packet (`DnsName.AcceptedExactly`). Without a pointer the
  reported end is then one past the packet (`DnsName.TruncatedNameIsAccepted`), with one it is behind the
  first pointer (`DnsName.TruncatedTargetIsAccepted`).
- `firmware/components/mdns/mdns_receive.c:181-186`: a single byte of TXT data counts as empty whatever it is
  (`TxtRecord.LoneByteIsNotAnError`).
- `firmware/main/log_buffer.c:141-158`: the room estimated for an entry's header is 32 bytes, its longest form
  is 41; the later checks keep the excerpt intact (`LogExcerpt.GetSince`).

## Model

| member | source | states |
|---|---|---|
| TelnetCodec.ChunkingIsInvisible | firmware/main/sink_tcp.c:351-436 | every cutting of one byte stream into chunks ends in the same parser state with the same ordered trace of data, negotiations and subnegotiations |
| TelnetCodec.RunConcat | firmware/main/sink_tcp.c:351-436 | reading two streams after one another is reading their concatenation |
| TelnetCodec.PlainClientIsTransparent | firmware/main/sink_tcp.c:358-376 | a client whose first byte is not 0xFF is passed through byte for byte and never becomes telnet |
| TelnetCodec.RawIsTransparent | firmware/main/sink_tcp.c:358-362 | once raw, always raw, and nothing is stripped |
| TelnetCodec.RunStaysSane | firmware/main/sink_tcp.c:351-436 | payloads handed to the dispatcher never exceed 40 bytes, and the telnet flag is set exactly in the framing states |
| TelnetCodec.OwedStep | firmware/main/sink_tcp.c:351-436 | one byte moves exactly its own events from what is still owed to what was seen |
| TelnetCodec.Client.CollectByte | firmware/main/sink_tcp.c:408-420 | a payload byte is appended while the buffer has room and dropped after that |
| TelnetCodec.Client.Control | firmware/main/sink_tcp.c:366-434 | one pass of the state switch outside plain data does the transducer's step, or asks for one reprocessing pass at lower rank |
| TelnetCodec.Client.ProcessRx | firmware/main/sink_tcp.c:351-436 | one chunk extends the trace by exactly the per-byte transducer's output; coalesced data is never overtaken by a control event, and reprocessing terminates |
| TelnetCodec.Client.Receive | firmware/main/sink_tcp.c:448-458 | the whole receive loop depends on the byte stream only |
| TelnetPrinter.RoundTrip | firmware/main/sink_tcp.c:351-436 | a printed conversation is understood exactly as meant if and only if it starts with IAC and every payload fits 40 bytes, or it is nothing but text without 0xFF |
| TelnetPrinter.RunItems | firmware/main/sink_tcp.c:377-429 | any list of text runs, negotiations, other commands and subnegotiations, printed, parses to that list with long payloads cut to the buffer; two-byte commands such as IAC NOP leave no trace |
| TelnetPrinter.RunFrame | firmware/main/sink_tcp.c:387-429 | a printed subnegotiation yields one dispatch of its first 40 payload bytes and returns to data |
| TelnetPrinter.CommandsOnTheWire | firmware/main/sink_tcp.c:377-406 | behind an IAC in the data 0xFF is one data byte, 0xFA opens a frame, 0xFB to 0xFE take one more byte and yield one negotiation, and any other byte ends the command without a trace |
| TelnetPrinter.FrameCutShort | firmware/main/sink_tcp.c:416-429 | a subnegotiation closed by an IAC and a byte that is neither IAC nor SE is dispatched, and that byte goes to the source as data |
| TelnetPrinter.ClippingShows | firmware/main/sink_tcp.c:408-420 | cutting is visible exactly when some payload does not fit |
| TelnetPrinter.CpoReply | firmware/main/sink_tcp.c:240-251 | a reply fits 72 bytes, doubles 0xFF, always closes with IAC SE, and cuts the value only when the buffer is full |
| TelnetPrinter.ReplyIsAFrame | firmware/main/sink_tcp.c:240-251 | a reply is one well-formed frame exactly when its response code is not 0xFF |
| TelnetPrinter.ClientSend | firmware/main/sink_tcp.c:613-650 | each send call gets the doubled form of a whole slice of at most 256 bytes, and of at least 255 unless it is the last, so no pair is split; only a negative result ends the fan-out early |
| TelnetPrinter.TakeByte | firmware/main/sink_tcp.c:624-639 | one byte goes into the buffer, after a send call when the buffer cannot take a pair |
| TelnetPrinter.SendRest | firmware/main/sink_tcp.c:640-649 | what is left in the buffer is the last call |
| TelnetPrinter.FanoutReadsBack | firmware/main/sink_tcp.c:613-650 | the peer gets exactly the source's bytes if and only if the calls carry all of them and every call is taken whole; bytes cut off by a short count are never made up for |
| TelnetPrinter.ShortCountMisleads | firmware/main/sink_tcp.c:616-637 | a 0xFF of which one byte is taken makes the peer lose the first byte of the next fan-out, or read two of its bytes as a negotiation |
| TelnetPrinter.RunIsPaidFor | firmware/main/sink_tcp.c:377-434 | no framed stream carries more data than its bytes can pay for, a 0xFF costing two |
| TelnetOptions.Line.Negotiate | firmware/main/sink_tcp.c:178-230 | a request gets at most one answer, and the serial line goes to the first client whose COM-PORT request is agreed to |
| TelnetOptions.AnsweredInKind | firmware/main/sink_tcp.c:200-230 | a WILL is answered by DO or DONT, a DO by WILL or WONT, a refusal not at all; binary, suppress-go-ahead and COM-PORT are agreed to, all else is refused |
| TelnetOptions.EndlessExactly | firmware/main/sink_tcp.c:198-230 | two ends that both answer this way never stop exactly when the option is one they agree to; any other request is over after one answer |
| ComPort.Subnegotiate | firmware/main/sink_tcp.c:255-345 | every SET reply reports the coding in force afterwards; only the controller changes it, only as requested, and only when the driver took all of it |
| ComPort.AppliedRequestEchoes | firmware/main/sink_tcp.c:232-237 | an applied request is echoed verbatim exactly when its code is one RFC 2217 defines |
| ComPort.BaudRoundTrip | firmware/main/sink_tcp.c:279-290 | the four baud bytes survive decoding and encoding |
| ComPort.RequestTouchesOneField | firmware/main/sink_tcp.c:279-317 | a request leaves the reports of the three other fields alone |
| ComPort.RequestedCodes | firmware/main/sink_tcp.c:232-317 | what each SET command asks for, code by code, and when it is only a query |
| ComPort.OtherReplies | firmware/main/sink_tcp.c:274-344 | signature, control, purge and mask commands: the response codes are 100 higher, a control request is answered with the state of its own group, anything else is swallowed |
| ComPort.Uart.ApplyLc | firmware/main/source_uart.c:181-196 | the shadow changes only if all four driver calls succeed; the wire takes the calls before the first failure |
| ComPort.Uart.Revert | firmware/main/source_uart.c:275-288 | the stored coding, else the default, goes back on the wire |
| ComPort.ReportIsTrueOfTheWire | firmware/main/source_uart.c:159-176 | a report agrees with the registers exactly for word lengths 5 to 8, parity none, odd or even, and one or two stop bits |
| ComPort.FailedApplyAndTheWire | firmware/main/source_uart.c:181-196 | after a failed call the wire still agrees with the shadow exactly when the named register was not reached or would not have changed |
| ComPort.FailedApplyCanLeaveTheWireChanged | firmware/main/source_uart.c:181-196 | a concrete request whose failure leaves 9600 baud on the wire and 115200 in the reply |
| ComPort.ReplyIsTrueExactly | firmware/main/source_uart.c:181-196 | after any history of settings, reverts and driver failures a reply about a field is true of the wire exactly when the last attempt that wrote the register put there what the last complete one asked for |
| ComPort.AgreesExactly | firmware/main/source_uart.c:181-196 | after any such history wire and shadow agree exactly when every register's last writer wanted what the last complete attempt wanted |
| ComPort.WireIsWhatReachedIt | firmware/main/source_uart.c:181-196 | each register holds what the last attempt that got as far as its driver call asked for |
| ComPort.Drive | firmware/main/sink_tcp.c:255-345 | the UART goes through any history of subnegotiations, by the controller and by others, and of reverts as the attempts in it say, and every SET is answered with the coding in force after it |
| ComPort.DriveOne | firmware/main/sink_tcp.c:255-345 | one command or revert makes at most one attempt, and a client that is not the controller makes none |
| ClientTable.RunStaysGood | firmware/main/sink_tcp.c:440-593 | on every run the controller flag holds exactly for the controlling slot, no free slot is controller, the active counter equals the occupied slots, and settled accepts equal active plus disconnected plus refused |
| ClientTable.NextKeepsGood | firmware/main/sink_tcp.c:107-187 | each accept, acquire, hang-up, close and drop step keeps that invariant |
| ClientTable.OwnerExactly | firmware/main/sink_tcp.c:178-187 | the line belongs to a slot exactly when that slot's client found it unowned and has neither left nor been dropped since |
| ClientTable.SitsExactly | firmware/main/sink_tcp.c:107-126 | on every legal run a slot holds a socket exactly when its client was seated there, in the first free slot of four, and has not left since |
| ClientTable.RefusedExactlyWhenFull | firmware/main/sink_tcp.c:559-571 | a client is turned away exactly when the active counter says four |
| ClientTable.DroppedClientCanTakeTheLine | firmware/main/sink_tcp.c:738-751 | after a drop any client still in its slot can become controller with its socket already shut |
| ClientTable.DeadExactly | firmware/main/sink_tcp.c:738-751 | on every legal run an occupied slot's socket is shut exactly when a drop or a failed send hit the very client that is in it |
| ClientTable.DeadControllerExactly | firmware/main/sink_tcp.c:178-187 | taking an unowned line makes a controller of a dead session exactly when the taker had been shut before and has not left |
| ClientTable.Table.FindFree | firmware/main/sink_tcp.c:107-113 | the first inactive slot, or none |
| ClientTable.Table.SettleAccept | firmware/main/sink_tcp.c:559-587 | the client enters the first free slot with fresh state, and is admitted exactly while fewer than four are active |
| ClientTable.Table.BeginAccept | firmware/main/sink_tcp.c:557 | the accept is counted before its slot is looked for |
| ClientTable.Table.AcquireLine | firmware/main/sink_tcp.c:178-187 | the first to negotiate becomes controller, later ones change nothing |
| ClientTable.Table.CloseClient | firmware/main/sink_tcp.c:115-126 | an active slot is emptied and counted once, an inactive one is left alone |
| ClientTable.Table.Cleanup | firmware/main/sink_tcp.c:460-475 | the task's last act keeps the invariant, and the line coding reverts exactly when the client owned the line at that moment |
| ClientTable.Table.DropAll | firmware/main/sink_tcp.c:738-751 | ownership is taken away, every active socket is shut and counted, and no slot is freed |
| Replay.ClientGetsWhatItIsOwed | firmware/main/sink_tcp.c:663-705 | after every history an accepted client gets the newest 512 bytes said to an empty house since the last drop, unless the window is over or an earlier client had them |
| Replay.OneClientPerDrop | firmware/main/sink_tcp.c:670-705 | between two clients that both get something lies a drop, whatever the clock does |
| Replay.StaysFaithful | firmware/main/sink_tcp.c:663-705 | the window state is the one the history since the last drop determines, or it has shut for good |
| Replay.Buffer.Keep | firmware/main/sink_tcp.c:683-691 | the buffer holds the last 512 captured bytes, the oldest being shifted out |
| Replay.Buffer.Capture | firmware/main/sink_tcp.c:676-692 | captured data extends the window's content, and a late capture shuts the window |
| Replay.Buffer.OnRx | firmware/main/sink_tcp.c:707-728 | source data is captured only when it went to no client |
| Replay.Buffer.Flush | firmware/main/sink_tcp.c:695-705 | the content is sent only inside the window and given away once; with nothing waiting the window stays open |
| Replay.Serve | firmware/main/sink_tcp.c:663-728 | run over any history, the buffer hands each client exactly what it is owed and sends nothing otherwise |
| Reconnect.KeptOnlyAfterTheLastClose | firmware/main/sink_tcp.c:707-764 | in every history between a drop and the next client only dead sessions hold slots, and the window holds exactly what the radio said after the last dropped client's task had ended |
| Reconnect.NextClientGetsTheRest | firmware/main/sink_tcp.c:695-705 | the next client gets the newest 512 bytes of just that, if it comes in time |
| Reconnect.GivenAwayOnce | firmware/main/sink_tcp.c:559-586 | a client is admitted while fewer than four dropped ones hold their slots; what waited is then given away once, and kept if the client is turned away |
| Reconnect.LostExactly | firmware/main/sink_tcp.c:707-728 | data reaches no live client and is not kept exactly when only dead sessions hold slots, or no slot is held and no window is open |
| NorFlash.Flash.Erase | firmware/main/webui.c:611-614 | whole sectors are blanked in ascending order until the power fails |
| NorFlash.Flash.Write | firmware/main/webui.c:661-664 | bytes are ANDed in ascending order until the power fails |
| NorFlash.Flash.WriteAtomic | firmware/main/webui.c:680-683 | the commit write lands whole or not at all |
| NorFlash.EraseThenProgram | firmware/main/webui.c:611-664 | erased bytes are 0xFF, programming clears bits only, and what was erased takes the data as it is |
| RadioStage.HandleUpload | firmware/main/webui.c:585-696 | an upload leaves the partition untouched, or opening with a blank byte, or holding exactly the body; it is refused exactly for its length; it commits exactly when enough bytes arrive, byte 0 and the descriptor are right, bytes 12 and 13 are those of the image staged before, if there was one, and the power lasts; once cut behind its erase it leaves byte 0 blank |
| RadioStage.ReceiveBody | firmware/main/webui.c:628-670 | the receive loop ends with everything but the first sector written and that sector held, or fails for a lost connection, a wrong header or lost power |
| RadioStage.TakeChunk | firmware/main/webui.c:638-667 | a received chunk is written except for its share of the first sector, which stays blank |
| RadioStage.HoldBack | firmware/main/webui.c:639-660 | a completed first sector passes only with the image magic and, when an image was staged before, the same two bytes of the chip id |
| RadioStage.HandleUploads | firmware/main/webui.c:585-696 | over any sequence of uploads cut, refused or crashed anywhere, a partition the sync accepts is exactly the last committed body followed by blank flash; two commits with nothing but refusals between them are for the same chip, and an upload cut behind its erase lifts that fence |
| RadioStage.ArrivesExactly | firmware/main/webui.c:628-637 | a body arrives exactly when the receive calls bring enough bytes before the first error; time-outs do not matter |
| RadioStage.AcceptedExactly | firmware/main/radio_flash.c:113-141 | the sync accepts a partition exactly when more than 0x20120 bytes stand before its blank tail, the first is 0xE9 and the descriptor has its magic word |
| RadioStage.NextPiece | firmware/main/webui.c:638-667 | each offset outside the first sector is written once, onto blank flash |
| RadioStage.CommitCompletes | firmware/main/webui.c:680-683 | writing the held-back sector turns the partition into the body followed by blank flash |
| RadioStage.CommittedThenAccepted | firmware/main/radio_flash.c:113-141 | a committed body is accepted by the sync exactly when its trimmed, rounded length exceeds 0x20120 |
| RadioStage.SmallestImageIsStuck | firmware/main/webui.c:584-598 | a committed body of the minimum length is refused by the sync at every boot |
| RadioStage.AcceptedImageIsTheBody | firmware/main/radio_flash.c:116-120 | trimming gives back the body up to blank padding |
| RadioSync.TrimPartition | firmware/main/radio_flash.c:116-120 | the size is the position behind the last non-blank byte, rounded up to four |
| RadioSync.MatchingMeans | firmware/main/radio_flash.c:198-217 | the deciding comparison is equality from byte 0x20000 on, the final one equality of every byte |
| RadioSync.HealingTestIsExact | firmware/main/radio_flash.c:198-269 | wherever a rewrite stops, the next comparison matches exactly when the whole image from address 0 is there, or it matched before and the erase never reached the application |
| RadioSync.InterruptedRewriteIsSeen | firmware/main/radio_flash.c:198-269 | a radio that did not match before a rewrite cannot match before every byte has landed |
| RadioSync.LostBootLoaderLooksHealthy | firmware/main/radio_flash.c:198-269 | a matching radio whose rewrite is cut after the first sector still matches and has lost its boot loader |
| RadioSync.Sync | firmware/main/radio_flash.c:94-281 | one boot leaves the radio untouched, or as far into an ascending rewrite as the power lasted, or holding the whole image; each of the five outcomes has its exact condition; a boot that ends well leaves the whole image there exactly when it was there before or the comparison did not match |
| RadioSync.WriteImage | firmware/main/radio_flash.c:243-256 | the block loop programs the image in ascending order until it is complete or the power is gone |
| RadioSync.Live | firmware/main/radio_flash.c:94-281 | over any number of interrupted boots, with the radio rewriting its own data in between, a radio that looks in sync received the whole image or was never written, unless a rewrite made without a comparison was cut below the application; while comparisons can be made, no boot writes after one that found or left the radio in sync |
| RadioSync.BootOnce | firmware/main/radio_flash.c:94-281 | one boot of such a life keeps that trust, and a boot that can compare never writes to a matching radio |
| RadioSync.RewriteTwin | firmware/main/radio_flash.c:198-269 | the decision depends on the application region only: after a rewrite the radio matches exactly when a twin without the radio's own writes holds the whole image, or it matched before and the erase never reached the application |
| RadioStation.Run | firmware/main/webui.c:585-696 | over any life of uploads, boots and running, each cut anywhere, a boot that reports a rewrite leaves exactly the last committed image on the radio, and one that reports in sync found its application there |
| RadioStation.LiveDay | firmware/main/radio_flash.c:94-281 | a boot never touches the partition and judges by what it holds |
| RadioStation.RewrittenHoldsTheBody | firmware/main/radio_flash.c:116-120 | an image that landed from a committed partition is the uploaded body, up to trailing 0xFF |
| UsbTeardown.TeardownIsSafe | firmware/main/source_usb_cherry.c:165-204 | in every interleaving an idle stick task means that nobody can reach any handle, a handle freed after a clean stop is out of reach for ever, and each claim gives one connect signal and one session |
| UsbTeardown.NextKeepsInv | firmware/main/source_usb_cherry.c:165-447 | every step of hub thread, stick task and callers keeps the invariant on flags, shared handle and mutex |
| UsbTeardown.EventKeepsInv | firmware/main/source_usb_cherry.c:217-263 | enumeration, claim, removal and disconnect events keep it; every claim starts with the close request cleared |
| UsbTeardown.StopKeepsInv | firmware/main/source_usb_cherry.c:165-204 | the steps of the stop routine keep it |
| UsbTeardown.OpeningKeepsInv | firmware/main/source_usb_cherry.c:301-331 | claiming and opening a device keep it |
| UsbTeardown.SessionKeepsInv | firmware/main/source_usb_cherry.c:333-400 | publishing the handle, applying the line coding and reading keep it |
| UsbTeardown.ClosingKeepsInv | firmware/main/source_usb_cherry.c:321-425 | the three ways out of a session keep it |
| UsbTeardown.CallerKeepsInv | firmware/main/source_usb_cherry.c:273-299 | a transmit or line-coding caller keeps it |
| UsbTeardown.ToCloseExactlyWhenAsked | firmware/main/source_usb_cherry.c:176-261 | in every run the close request is set exactly when, since the last claim, the stop routine found its instance ours or a disconnect event came for the claimed port |
| UsbTeardown.UnaskedSessionGoesOn | firmware/main/source_usb_cherry.c:311-391 | a session that nobody asked to close reads on and leaves only if its port is disconnected, a failing open is tried again; one that was asked does neither |
| UsbTeardown.NoUnplugIsMissed | firmware/main/source_usb_cherry.c:165-261 | as long as nobody asked, the claimed device is still plugged in or its removal has only just begun |
| UsbTeardown.AskedClaimIsReleased | firmware/main/source_usb_cherry.c:301-430 | a claim that was asked to close does not outlast eleven steps of the stick task |
| UsbTeardown.RemovalAdvances | firmware/main/source_usb_cherry.c:165-204 | each step of the hub thread brings a removal closer to its end, six away at most; an instance is freed clean exactly when the stop routine let it pass or saw the stick task idle |
| UsbTeardown.RemovalIsNeverStuck | firmware/main/source_usb_cherry.c:165-204 | the hub thread can always go on with a removal, unless it waits for the mutex |
| UsbTeardown.StickIsNeverStuck | firmware/main/source_usb_cherry.c:301-430 | the stick task can always move, unless it waits for a connect signal or for the mutex, which its holder can give back |
| UsbTeardown.WaitEnds | firmware/main/source_usb_cherry.c:186-204 | while the stop routine waits, each step of the stick task brings it closer to idle and nobody sets it back |
| UsbTeardown.WaitIsShort | firmware/main/source_usb_cherry.c:186-204 | in every run, eight steps of the stick task within one wait of the stop routine are enough for it to report idle |
| UsbTeardown.CallersCanEnterAfterClear | firmware/main/source_usb_cherry.c:165-204 | a concrete run in which a caller enters with the handle after the stop routine cleared it |
| UsbTeardown.EntryAfterClearExactly | firmware/main/source_usb_cherry.c:178-184 | in every run, some continuation lets a caller into the instance after the clear if and only if the stick task stood between opening and publishing it at that moment |
| UsbTeardown.StaysOutOfReach | firmware/main/source_usb_cherry.c:165-447 | a removed instance that is neither published nor about to be stays out of every caller's reach |
| TxLock.TakeoverNeedsSilence | firmware/main/bridge.c:163-230 | in AUTO mode ownership passes between sinks only at the new owner's check, more than five seconds after every earlier successful transmission |
| TxLock.AdmittedExactlyAfterSilence | firmware/main/bridge.c:177-215 | in AUTO mode an attached sink that is not the owner is admitted, and takes the lock, exactly when no transmission succeeded within the last five seconds, boot counting as one until the first success |
| TxLock.ClaimIsNoShield | firmware/main/bridge.c:217-230 | whoever takes the lock from another sink can lose it to any third one at the same instant |
| TxLock.ClaimShieldsAfterBoot | firmware/main/bridge.c:186-193 | two concrete sinks within five seconds of boot: the second is refused though nobody has transmitted |
| TxLock.StampIsLastTx | firmware/main/bridge.c:224-229 | the time stamp is that of the last success, or zero |
| TxLock.PinnedAdmitsOnlyItsOwner | firmware/main/bridge.c:163-232 | a pinned lock has a valid owner and admits exactly that sink, besides system calls |
| TxLock.PinnedOwnerHasTheName | firmware/main/bridge.c:234-255 | on every run the lock is pinned exactly when a known name was given and AUTO not asked for since, and its owner is the first sink under that name |
| TxLock.AutoFreesTheLock | firmware/main/bridge.c:234-243 | asking for AUTO frees the lock: every attached sink is admitted at once |
| TxLock.FirstEightAreAttached | firmware/main/bridge.c:100-121 | on every run the sinks are the first eight that asked, in order, under the first fifteen characters of their names |
| TxLock.RejectsAreConserved | firmware/main/bridge.c:177-215 | the reject total counts every refused check and equals the per-sink sum plus the rejects of unattached senders |
| TxLock.ClaimAloneGivesNoGrace | firmware/main/bridge.c:217-230 | two concrete sinks: the second takes the lock at the instant of the first one's claim |
| TxLock.PlayIsSound | firmware/main/bridge.c:100-255 | on every run the owner is an attached sink or nobody, and pinned means somebody |
| TxLock.LastTxIsRemembered | firmware/main/bridge.c:217-230 | with a monotone clock the time stamp is no earlier than any successful transmission |
| TxLock.Bridge.CheckTx | firmware/main/bridge.c:177-215 | the lock check admits, claims and counts rejects as specified |
| TxLock.Bridge.TxDone | firmware/main/bridge.c:217-230 | only the time stamp changes after a successful transmission |
| TxLock.Bridge.SetTxMaster | firmware/main/bridge.c:234-255 | auto clears the owner, a known name pins it, an unknown name changes nothing |
| TxLock.Bridge.AttachSink | firmware/main/bridge.c:100-121 | a ninth sink is refused, and names are cut to 15 characters |
| TxLock.Bridge.FindSink | firmware/main/bridge.c:33-39 | the first position of the sink, or -1 |
| TxLock.Bridge.FindId | firmware/main/bridge.c:41-50 | the first position of a non-empty name, or -1 |
| SearchLifecycle.FinishedAtMostOnce | firmware/components/mdns/mdns_querier.c:60-94 | over every interleaving a search is signalled at most once, and notified exactly as often if it asked for it |
| SearchLifecycle.NoUseAfterFree | firmware/components/mdns/mdns_querier.c:60-225 | no step touches a search that has been freed |
| SearchLifecycle.StaleActionsDoNothing | firmware/components/mdns/mdns_querier.c:108-161 | a queued SEND or END for a freed search has no effect, and no ADD for one is ever queued |
| SearchLifecycle.NoSearchIsLost | firmware/components/mdns/mdns_querier.c:166-193 | a live search waits to be added, is listed, or was signalled exactly once; a listed one switched off has its END still to come |
| SearchLifecycle.EndFinishes | firmware/components/mdns/mdns_querier.c:81-94 | executing an END takes the search off the list and leaves a live one signalled exactly once |
| SearchLifecycle.EndIsDelivered | firmware/components/mdns/mdns_querier.c:81-161 | in every run an END with k actions before it has taken its search off the list for good once k + 1 actions were executed |
| SearchLifecycle.FreedExactly | firmware/components/mdns/mdns_querier.c:770-792 | a search is freed exactly by its signalled synchronous caller, or by a deletion once it is switched off, which also unlinks it and withdraws its notifier |
| SearchLifecycle.SentIsCounted | firmware/components/mdns/mdns_querier.c:108-149 | in every run what a search has sent is the number of its SENDs executed while it was listed |
| SearchLifecycle.SentGrowsExactly | firmware/components/mdns/mdns_querier.c:108-149 | a step sends queries of a search exactly when it executes its SEND and the search is listed |
| SearchLifecycle.NobodyIsListedTwice | firmware/components/mdns/mdns_querier.c:81-106 | no search is ever in the list twice |
| SearchLifecycle.DeleteRefusedExactlyWhileActive | firmware/components/mdns/mdns_querier.c:770-792 | deletion is refused exactly while the search waits to be added or is listed with no END on its way |
| SearchLifecycle.StepKeepsInv | firmware/components/mdns/mdns_querier.c:81-225 | every timer, queue, parser and caller step keeps the standing of every search |
| SearchLifecycle.TickKeeps | firmware/components/mdns/mdns_querier.c:166-193 | the timer keeps it, whether or not the action could be queued |
| SearchLifecycle.RunActionKeeps | firmware/components/mdns/mdns_querier.c:134-161 | executing any queued action keeps it |
| SearchLifecycle.CreateKeeps | firmware/components/mdns/mdns_querier.c:808-860 | creating a search keeps it, also when its ADD could not be queued |
| SearchLifecycle.DeleteKeeps | firmware/components/mdns/mdns_querier.c:770-792 | deletion by either kind of caller keeps it |
| Querier.Searches.FinishSearch | firmware/components/mdns/mdns_querier.c:81-94 | a listed search is switched off, unlinked, notified once and signalled once; any other is left alone |
| Querier.Searches.IsInList | firmware/components/mdns/mdns_querier.c:60-70 | true exactly for the members of the list |
| Querier.Searches.RunInHand | firmware/components/mdns/mdns_querier.c:134-149 | executing an action is the state machine's step, and keeps the invariant |
| Querier.Searches.StartStop | firmware/components/mdns/mdns_querier.c:166-193 | the timer's walk is one tick per listed search in list order, and leaves the list as it was |
| Querier.Searches.Done | firmware/components/mdns/mdns_querier.c:214-225 | the parser's walk finishes exactly the full searches although the list shrinks under it |
| Querier.Searches.Delete | firmware/components/mdns/mdns_querier.c:770-792 | a search is deleted exactly when it is switched off, wherever it still is |
| Querier.TimerWalkKeepsInv | firmware/components/mdns/mdns_querier.c:166-193 | a whole timer walk keeps the standing of every search, whichever actions found room in the queue |
| Querier.TickPaysWhatIsOwed | firmware/components/mdns/mdns_querier.c:166-193 | a tick queues one END for a search that timed out, else one SEND for one that is new or due again, if there is room, and nothing else |
| Querier.WalkPaysWhatIsOwed | firmware/components/mdns/mdns_querier.c:166-193 | a whole timer walk queues, in list order, what was owed to each search when it began |
| Querier.ParserWalkKeepsInv | firmware/components/mdns/mdns_querier.c:214-225 | a whole parser walk keeps it, and exactly the full searches it visits leave the list |
| DnsName.ReadFqdn | firmware/components/mdns/mdns_utils.c:18-73 | reading ends on every packet, stays inside it, returns where the spelling ends, and does to the name exactly what folding one step over the spelled items does |
| DnsName.TakeTurn | firmware/components/mdns/mdns_utils.c:22-70 | one turn of the loop refuses a malformed place, takes a label, or finds a pointer to a strictly smaller start, and leaves the rest of the fold to be done |
| DnsName.ParseFqdn | firmware/components/mdns/mdns_utils.c:75-107 | the final name is the folded one, rearranged for service and host names and refused for its top level |
| DnsName.RefusedExactlyOutsideLocalAndArpa | firmware/components/mdns/mdns_utils.c:90-105 | a name of one to four parts is refused exactly when it was already, or when its top level is, in any mix of cases, neither "local" nor "arpa"; a name of one part has none; a refused or empty name is not touched |
| DnsName.WhereALabelGoes | firmware/components/mdns/mdns_utils.c:40-55 | a second label that is no service label and no known top level lengthens the host, "_sub" is noted, any other label is the next of four fields, a fifth is refused |
| DnsName.CopyLabel | firmware/components/mdns/mdns_utils.c:32-39 | a label is copied whole exactly when it lies inside the packet |
| DnsName.ReadLabel | firmware/components/mdns/mdns_utils.c:32-55 | a label that lies inside the packet goes into the name, any other leaves the name alone |
| DnsName.MdnsName.TakeLabel | firmware/components/mdns/mdns_utils.c:40-55 | one label is appended to the host, recognised as subtype marker, or put into the next field |
| DnsName.FieldsFit | firmware/components/mdns/mdns_utils.c:18-73 | at most four parts, and no field outgrows its buffer |
| DnsName.SpellBounds | firmware/components/mdns/mdns_utils.c:18-73 | labels have 1 to 63 bytes; the reported end lies outside the packet exactly when the first segment runs off it |
| DnsName.AcceptedExactly | firmware/components/mdns/mdns_utils.c:18-73 | a name is accepted exactly when its whole chain of labels and pointers comes to a zero byte or runs off the packet, never both; the end lies behind the first segment's pointer, else behind its zero byte, else one past the packet |
| DnsName.TruncatedTargetIsAccepted | firmware/components/mdns/mdns_utils.c:56-73 | a concrete packet whose pointer leads to a name that runs off: accepted, with its end behind the pointer |
| DnsName.TruncatedNameIsAccepted | firmware/components/mdns/mdns_utils.c:18-73 | a concrete two-byte packet whose unterminated name is accepted |
| DnsName.PlainNameReadsBack | firmware/components/mdns/mdns_utils.c:18-73 | a written name reads back as its labels, and the end is right behind its zero byte |
| DnsName.CompressedNameReadsBack | firmware/components/mdns/mdns_utils.c:56-70 | a name ending in a pointer reads as its own labels followed by the name pointed to |
| DnsName.AcceptedIsWritten | firmware/components/mdns/mdns_utils.c:18-73 | whatever is accepted was written as labels followed by a zero byte, the packet's end, or an earlier pointer to an accepted name |
| DnsName.CompressionIsInvisible | firmware/components/mdns/mdns_utils.c:18-73 | pointers change no field; a pointer met with four parts filled marks the name invalid as a fifth label would |
| DnsName.InstanceName | firmware/components/mdns/mdns_utils.c:75-107 | instance, service, protocol and local land in the four fields |
| DnsName.SubtypeName | firmware/components/mdns/mdns_utils.c:75-107 | a subtype before "_sub" takes the place of the instance |
| DnsName.ServiceName | firmware/components/mdns/mdns_utils.c:75-107 | a name without instance is shifted by one field |
| DnsName.HostName | firmware/components/mdns/mdns_utils.c:75-107 | any number of further host labels are joined with dots and cut at 64 characters |
| TxtRecord.Create | firmware/components/mdns/mdns_receive.c:224-316 | the building pass returns exactly the keyed strings in order up to the first empty one, never leaves the data, and neither its length check nor its item bound ever cuts it short |
| TxtRecord.CountItems | firmware/components/mdns/mdns_receive.c:181-203 | the number of strings before the first empty one, -1 if a length overruns the data, 0 for a single byte |
| TxtRecord.KeyLength | firmware/components/mdns/mdns_receive.c:208-219 | the position of the first '=', the length without one, -1 without a key |
| TxtRecord.ReadItem | firmware/components/mdns/mdns_receive.c:276-300 | key and value of one string, the recorded value length, and the cursor exactly behind it |
| TxtRecord.PassesExactlyWhenFramed | firmware/components/mdns/mdns_receive.c:181-203 | data passes the count exactly when it is length-prefixed strings up to its end or to an empty string |
| TxtRecord.TxtReadsBack | firmware/components/mdns/mdns_receive.c:224-316 | written items read back one by one, whatever stands behind a terminating empty string |
| TxtRecord.SameItemExactly | firmware/components/mdns/mdns_receive.c:276-300 | two strings give the same item exactly when they are equal up to one '=' after a bare key |
| TxtRecord.OneItemPerKeyedString | firmware/components/mdns/mdns_receive.c:259-300 | a string that is empty or begins with an equals sign gives no item, any other gives its own, in its place |
| TxtRecord.EveryItemHasAKey | firmware/components/mdns/mdns_receive.c:259-300 | no item has an empty key or one with an equals sign in it |
| TxtRecord.LoneByteIsNotAnError | firmware/components/mdns/mdns_receive.c:183-186 | a lone length byte is accepted as empty though it announces bytes that are not there |
| RebootScanner.ScannerIsExact | firmware/main/source_uart.c:133-155 | the automaton reports a hit exactly at the end of each occurrence in the whole stream, and its count is the longest banner prefix the stream ends with |
| RebootScanner.TwoMatchesNest | firmware/main/source_uart.c:133-155 | the banner has no border, which is why the one-byte fallback is enough |
| RebootScanner.Scanner.Scan | firmware/main/source_uart.c:133-155 | for every chunking the scanner's state and drops are those of the whole stream |
| RebootScanner.DropsAreSpaced | firmware/main/source_uart.c:139-147 | drops are at least two seconds apart, and none falls into the first two seconds |
| RebootScanner.DropExactlyAtFreshBanner | firmware/main/source_uart.c:139-147 | a byte causes one drop, at its own time, exactly when it completes "ESP-ROM:" two seconds or more after the last drop, or after boot |
| CulDfu.Flash | firmware/main/cul_dfu.c:369-458 | the device holds the confirmed prefix of the image, each cell erased first and written once; success means all of it, exactly when every erase and every block was confirmed |
| CulDfu.WriteBlocks | firmware/main/cul_dfu.c:417-427 | the block loop succeeds exactly when every block is confirmed, and touches nothing behind the image |
| CulDfu.EraseBlocks | firmware/main/cul_dfu.c:208-226 | success exactly when every needed block, or after a refusal the whole chip, was erased; then every cell the image needs is blank, and without the fallback no block behind the one with the last byte is touched |
| CulDfu.FlashBlock | firmware/main/cul_dfu.c:242-271 | the device carries out exactly the program command meant |
| CulDfu.HeaderRoundTrip | firmware/main/cul_dfu.c:242-271 | the address header decodes to the block that was meant |
| CulDfu.MessageSpelled | firmware/main/cul_dfu.c:242-271 | a program message byte by byte: command, first and last address, zeros, data, and the suffix |
| CulDfu.CommandsMean | firmware/main/cul_dfu.c:208-226 | the erase commands, block by block and for the whole chip, and that nothing with other first bytes is a command |
| CulDfu.BuildMessage | firmware/main/cul_dfu.c:242-271 | the message fits the driver's buffer: control block, data, suffix |
| CulDfu.WaitOk | firmware/main/cul_dfu.c:165-183 | success is reported exactly when some poll within the time is OK and none before it was lost or an error |
| SerialCfg.UpsertIsMapUpdate | firmware/main/serialcfg.c:65-99 | with keys that fit, upsert is map update, except that a new key into a full table first drops slot 0's key |
| SerialCfg.DeleteIsMapRemoval | firmware/main/serialcfg.c:101-118 | delete is map removal |
| SerialCfg.LookupIsMapLookup | firmware/main/serialcfg.c:45-63 | lookup is map lookup |
| SerialCfg.ListShowsTheMap | firmware/main/serialcfg.c:120-138 | the list shows every entry of the map once |
| SerialCfg.HistoryKeepsKeysDistinct | firmware/main/serialcfg.c:31-138 | over any history with fitting keys the occupied slots hold distinct keys |
| SerialCfg.PlaysLikeAMapExactly | firmware/main/serialcfg.c:31-138 | over any history with fitting keys the table is a plain map at every moment exactly as long as that map never holds a ninth key |
| SerialCfg.PutAgrees | firmware/main/serialcfg.c:65-99 | one upsert is a plain map update exactly when the map has room for it |
| SerialCfg.StoredIsFoundIffKeyFits | firmware/main/serialcfg.c:65-99 | what was stored is found again exactly when its key has at most 32 characters |
| SerialCfg.LongKeyDuplicates | firmware/main/serialcfg.c:65-99 | a longer key keeps keys distinct exactly when no other slot holds its first 32 characters |
| SerialCfg.SameLongKeyTwice | firmware/main/serialcfg.c:65-99 | saving a 33-character key twice occupies two slots |
| SerialCfg.Table.Lookup | firmware/main/serialcfg.c:45-63 | the coding of the first slot with the key |
| SerialCfg.Table.Upsert | firmware/main/serialcfg.c:65-99 | the matching, else first free, else first slot is replaced if the write lands, which a failed commit leaves open; success is reported only for a committed one |
| SerialCfg.Table.Delete | firmware/main/serialcfg.c:101-118 | the first matching slot is freed if the write lands; an unknown key changes nothing |
| SerialCfg.Run | firmware/main/serialcfg.c:65-118 | over any history of writes that are not set, set without a commit, or committed, the table is what the writes that landed make of it |
| SerialCfg.FailuresDropOut | firmware/main/serialcfg.c:65-118 | operations whose writes did not land drop out of the history |
| SerialCfg.Table.List | firmware/main/serialcfg.c:120-138 | the used slots in order, up to the caller's capacity |
| LogRing.Ring.Hook | firmware/main/log_buffer.c:84-107 | a line is appended behind a marker that owns up to all pending drops, or counted as dropped |
| LogRing.Ring.Append | firmware/main/log_buffer.c:84-107 | the window property: the ring slot of every number from oldest to head holds that line of the unbounded log |
| LogRing.Record | firmware/main/log_buffer.c:84-107 | over any history the log holds exactly the lines whose call found the mutex free, and markers plus pending count every other one |
| LogRing.MarkersTellTheCount | firmware/main/log_buffer.c:87-97 | two markers read alike exactly when they stand for the same number of drops |
| LogRing.MarkerSpelled | firmware/main/log_buffer.c:87-97 | the text of a marker, word by word |
| LogRing.NewestLinesAreThere | firmware/main/log_buffer.c:84-107 | each of the newest lines, as many as the ring has slots, stands at its number modulo the size exactly as it was logged |
| LogRing.SameSlotIsFarApart | firmware/main/log_buffer.c:84-107 | two numbers share a ring slot only when they are a whole ring apart |
| LogExcerpt.GetSince | firmware/main/log_buffer.c:120-175 | the buffer begins with a gap-free run of lines from max(since, oldest), never written past its end; only the last can be cut, and a cut or an early end is for want of room |
| LogExcerpt.FillFrom | firmware/main/log_buffer.c:137-171 | the loop over the lines: each turn adds one entry, and it stops early only when the next whole entry does not fit |
| LogExcerpt.PutMessage | firmware/main/log_buffer.c:153-165 | the escaped message goes out byte by byte until fewer than eight bytes are left |
| LogExcerpt.PutEntry | firmware/main/log_buffer.c:138-171 | an entry is completed, with its shown prefix, or the text before it is left as it was |
| LogExcerpt.EntryReadsBack | firmware/main/log_buffer.c:144-171 | a reader that looks for the first unprotected quote finds the end of an entry's message, and un-escapes it to a prefix of the line |
| LogReader.ExcerptReadsBack | firmware/main/log_buffer.c:137-172 | a reader of the whole excerpt gets back the number and time stamp of every line in it, in order, the whole text of each but the last, and the shown beginning of the last |
| LogReader.FilledReadsBack | firmware/main/log_buffer.c:120-175 | what the call leaves in the buffer reads as whole lines in order; only the last can be cut, and only within five bytes of the buffer's end |
| LogReader.AmpleRoom | firmware/main/log_buffer.c:141-168 | 44 bytes besides six for each byte of a line always hold one more whole entry |
| LogReader.EntrySpelled | firmware/main/log_buffer.c:144-171 | an entry is a JSON object with its three members, character by character |
| LogReader.CommaSeparated | firmware/main/log_buffer.c:144 | entries are separated by single commas and nothing else |
| LogReader.EntryReads | firmware/main/log_buffer.c:144-171 | one entry reads as its number, time stamp and message, whatever stands behind it |
| LogReader.NumberReadsBack | firmware/main/log_buffer.c:146-150 | a printed number reads back as itself |
| LogExcerpt.EscapeRoundTrip | firmware/main/log_buffer.c:153-165 | un-escaping inverts escaping |
| LogExcerpt.EscapeSpelled | firmware/main/log_buffer.c:153-165 | quotes and backslashes get a backslash, control characters become a six-character code, anything else stays |
| LogExcerpt.EndIsFound | firmware/main/log_buffer.c:153-168 | the escaped text holds no bare quote, so its closing quote is the first one a reader meets |
| LogExcerpt.EscapedIsPrintable | firmware/main/log_buffer.c:153-165 | no control character is left in the text |
| LogExcerpt.StripInPlace | firmware/main/log_buffer.c:38-51 | stripping in place computes the text without colour sequences |
| LogExcerpt.ColouredLine | firmware/main/log_buffer.c:38-51 | a coloured line becomes exactly its text |
| LogExcerpt.StrayEscape | firmware/main/log_buffer.c:38-51 | an escape byte that no bracket follows stays, and a colour sequence that never ends swallows the rest of the line |

## Left out

- Sockets, RTOS tasks, semaphores, NVS, the USB host library, the MD5 and radio download protocols: foreign calls, present as parameters or atomic steps.
- The raw path of a fan-out (`firmware/main/sink_tcp.c:604-613`): a single send of the unchanged data.
- `TelnetPrinter.ClientSend`: the error branch does not distinguish a full buffer from a dead socket; both end the fan-out, and closing the socket is the client task's affair.
- `ComPort.Subnegotiate`: one command is one step; another sink's change between the read and the write of the coding is not modelled.
- `ClientTable.Table.Cleanup`: returns whether the line coding is to be reverted; the revert itself runs later, outside the mutex, and is modelled in `ComPort.Uart.Revert`. The task handle in the slot is left out.
- `Replay.Buffer.Flush`: how much of the content the new client's socket takes is left to the fan-out model.
- `UsbTeardown.TeardownIsSafe`: says nothing about a stop routine that gave up after its 500 polls; such a handle is never counted as cleanly freed.
- `Querier.Searches.FinishSearch`: the linked list is a sequence of identities and searches are values in a map, so pointers are not modelled; time-outs are parameters of a walk; results and packet building are left out, and so is the shutdown of the server.
- `DnsName.ReadFqdn`: the build that answers reverse queries (a larger name buffer) is left out.
- `TxtRecord.Create`: allocation failures are left out; data is at most 65535 bytes long, the range of the cursor; a zero byte inside a key, which ends the key for a C reader, is kept.
- `CulDfu.Flash`: the EEPROM comparison around the block loop and the refusals without a device or while busy are left out.
- `LogRing.Ring.Hook`: takes the line already formatted, stripped, trimmed and cut to its first line and the slot's size; a marker and the line behind it carry one time stamp; sequence numbers and time stamps are unbounded.
- `LogExcerpt.GetSince`: well-formedness of the JSON around the entries is not claimed when the buffer runs out.
- Wrap-around of 32-bit statistics counters, scheduling and priorities.
- The rest of the web interface, configuration, health checks, network bring-up, OTA and the main mDNS packet parser: plumbing, or members that would only be easy.
