# OpenLST in Dafny

OpenLST is an open UHF radio for small satellites and their ground
stations. A CC1110 system-on-chip runs two firmware images. The bootloader
checks the application's AES CBC-MAC signature and accepts flash updates.
The radio application relays command messages between its serial ports and
the radio link and answers the commands addressed to it. Python tools on
the host talk to a radio over a serial port: they frame and parse the
messages, translate command text to bytes and back, and build and sign
flash images.

This project models that core. Each firmware or host file becomes one
Dafny module:

- Messages and their transports:
  - `Command` is the 6-byte command header and its data.
  - `Uart` is the serial (ESP) frame decoder and its buffer pool.
  - `Radio` is the radio packet codec and the send path.
  - `Dispatch` routes a received message to the command handler or
    forwards it.
- Command tables:
  - `BootCommands` is the bootloader's command table.
  - `AppCommands` is the application's command table.
  - `Board` is the board's RF-parameter command.
- Bootloader:
  - `Flash` is the flash memory map and the page updater.
  - `Signature` is the application signature check.
  - `Updater` is the update session's countdown.
- Application timekeeping:
  - `Timers` is the 1 ms clock and the timespec arithmetic.
  - `Schedule` is the reboot deadline and the receiver re-arm step.
- Firmware helpers:
  - `StringX` holds the byte helpers over xdata memory.
- Host tools:
  - `HostCommands` is the command handler: sequence numbers, ESP framing,
    the frame parser and the retry loop.
  - `Handler` is the serial protocol handler.
  - `OpenLstHost` is the newer single-radio driver.
  - `Translator` turns command text into message bytes and back.
  - `IntelHex` reads and writes Intel HEX files.
  - `Provision` builds bootloader flash images.
  - `Arguments` holds the command-line converters.
- Shared helpers:
  - `Bytes` holds fixed-width integers, byte order, hexadecimal text and
    Python slices.

The modelling follows the shape of the code:

- State the code updates in place is a `class`: the UART decoder, the radio
  link, the updater, the timers, the schedule, the host handlers and the
  flash images. Its methods state the whole new state.
- Pure computations are functions, with lemmas that relate them: round
  trips, invariants, and reference definitions.
- Unsigned C types and Python's `struct` formats are written out with
  explicit widths and wrap-around.

## Model

| member | source | states |
|---|---|---|
| Command.EncodeHeader | openlst/common/commands.h:33-38 | a command header occupies exactly six bytes (hwid and seqnum little-endian, then system and opcode) |
| Command.HeaderRoundTrip | openlst/common/commands.h:33-43 | the header read back from any message that starts with an encoded header has the same four fields |
| Command.ReplyHeader | open-lst/bootloader/commands.c:43-50 | a reply header is six bytes long |
| Bytes.Unhexlify | open-lst/tools/openlst_tools/arguments.py:34 | `unhexlify` of text succeeds only on an even number of hex digits and gives half as many bytes |
| Bytes.UnhexlifyHexlify | open-lst/tools/openlst_tools/arguments.py:34 | `unhexlify` reads back what `hexlify` writes |
| Bytes.PySliceAssign | open-lst/tools/openlst_tools/save_bootloader.py:47 | assigning a slice of the same size replaces exactly that slice; in general the slice is cut out and the new content put in its place |
| Uart.Init | openlst/common/uart1.c:42-102 | a fresh decoder is idle with every buffer free and a frame count of 0 |
| Uart.Step | openlst/common/uart1.c:175-227 | one received byte keeps the decoder well formed and the buffer pool the same size |
| Uart.Feed | openlst/common/uart1.c:175-227 | a run of received bytes keeps the decoder well formed |
| Uart.Poll | openlst/common/uart1.c:105-125 | the poll returns a message exactly when some buffer is ready, and never more than 251 bytes |
| Uart.Frame | openlst/common/uart1.c:134-142 | a transmitted frame is three bytes longer than the message and ends with the message |
| Uart.FeedAppend | openlst/common/uart1.c:175-227 | feeding two runs of bytes one after the other is feeding their concatenation |
| Uart.IdleUntilStart0 | openlst/common/uart1.c:180-185 | while waiting for 0x22 every other byte is ignored |
| Uart.Start1IsSticky | openlst/common/uart1.c:187-193 | once 0x22 has been seen, every byte other than 0x69 (0x22 included) keeps the decoder waiting for 0x69; it never goes back to waiting for 0x22 |
| Uart.BadLengthBackToStart1 | openlst/common/uart1.c:195-198 | a length byte of 0 or above 251 sends the decoder back to waiting for 0x69 and claims no buffer |
| Uart.FrameDroppedWhenFull | openlst/common/uart1.c:200-208 | with every buffer ready a valid header is dropped: back to waiting for 0x22, no buffer, length or count changed |
| Uart.Uart0DropsWhileBufferHeld | openlst/common/uart0.c:180-189 | UART0's single buffer, while unread, makes the next frame be dropped without touching the count |
| Uart.FillBuffer | openlst/common/uart1.c:217-225 | data bytes are stored in order from the fill offset; the last one marks the buffer ready, adds one to the count and returns to waiting for 0x22 |
| Uart.HeaderClaimsBuffer | openlst/common/uart1.c:199-213 | a valid header claims the lowest-index free buffer, records the length and starts at offset 0 |
| Uart.FrameLands | openlst/common/uart1.c:179-225 | the decoder state after a whole frame reaches an idle decoder with a free buffer |
| Uart.FrameDelivered | openlst/common/uart1.c:179-225 | a whole frame lands in the lowest-index free buffer, which becomes ready holding exactly the message; the count rises by one and no other buffer changes |
| Uart.FrameThenPoll | openlst/common/uart1.c:105-225 | a frame received with no buffer waiting comes back out of the next poll byte for byte, leaving no buffer ready |
| Uart.PollLowestReady | openlst/common/uart1.c:113-122 | the poll hands out the lowest-index ready buffer (index order, not arrival order) and releases only that one |
| Uart.ScenarioRepeatedStart | openlst/common/uart1.c:179-225 | from a fresh UART1 decoder, 22 22 69 03 01 02 03 leaves only buffer 0 ready, holding 01 02 03, with a count of 1 and the decoder idle |
| Uart.UartPort.constructor | openlst/common/uart1.c:42-102 | the port starts as `Init`: idle, all buffers free, count 0, nothing sent |
| Uart.UartPort.RxByte | openlst/common/uart1.c:175-227 | the interrupt changes the decoder's variables exactly as `Step` says and sends nothing |
| Uart.UartPort.RxLength | openlst/common/uart1.c:195-215 | the length-byte branch of the interrupt, as `Step` says |
| Uart.UartPort.RxData | openlst/common/uart1.c:217-225 | the data-byte branch of the interrupt, as `Step` says |
| Uart.UartPort.GetMessage | openlst/common/uart1.c:105-125 | copies the message `Poll` selects into the front of `buf`, releases that buffer and returns its length; with none ready it returns 0 and leaves `buf` unchanged |
| Uart.UartPort.Release | openlst/common/uart1.c:113-120 | buffer `i`'s bytes, as the decoder holds them, land at the front of `buf` and its length is returned; buffer `i` is released and nothing else in the decoder changes |
| Uart.UartPort.SendMessage | openlst/common/uart1.c:134-142 | transmits 0x22, 0x69, the length and then exactly that many message bytes in order |
| Uart.UartPort.DPrintf | openlst/common/uart1.c:144-155 | transmits one frame holding a header (this hwid, seqnum 0, radio-out system, ASCII opcode) followed by the text up to its NUL |
| Radio.Zeros | open-lst/common/radio.c:366 | the cleared transmit buffer is all zero bytes |
| Radio.DecodePacket | open-lst/common/radio.c:181-247 | an accepted message is between 6 and 251 bytes long |
| Radio.TxBody | open-lst/common/radio.c:365-376 | the prepared transmit buffer fills the 255-byte radio buffer |
| Radio.EncodeBuffer | open-lst/common/radio.c:365-380 | the complete transmit buffer fills the 255-byte radio buffer |
| Radio.TxBodyLayout | open-lst/common/radio.c:365-376 | before the checksum the buffer is the length byte len + 3, the flags, message bytes 2.. at their own offsets, the device id as footer, then zeros |
| Radio.PacketLayout | open-lst/common/radio.c:365-380 | the transmit buffer is that body, its checksum little-endian, then zeros |
| Radio.OnAirDependsOnMessage | open-lst/common/radio.c:366-380 | what goes on the air depends only on the first len bytes of the command buffer |
| Radio.FlagsRoundTrip | open-lst/common/radio.c:243 | the flags byte written on send gives back the same UART select on receive (bit 6) |
| Radio.DecodeAccepts | open-lst/common/radio.c:200-246 | a length byte in range with a matching checksum is accepted, with the message rebuilt as footer device id followed by the packet's bytes 2..len-1, and UART select from flags bit 6 |
| Radio.RoundTrip | open-lst/common/radio.c:181-386 | for any checksum function, a receiver whose buffer starts with the bytes sent for a 6..251-byte message accepts exactly that message (device id restored) with the same UART select |
| Radio.ChecksumMismatchRejected | open-lst/common/radio.c:217-224 | a footer checksum that does not match the covered bytes is always rejected as a checksum error |
| Radio.Unpack | open-lst/common/radio.c:200-246 | past the length guard a packet is never rejected as "other": it is rejected for its checksum, or accepted with a message of length byte - 3 bytes that starts with the footer's device id |
| Radio.OnAir | open-lst/common/radio.c:370-380 | the bytes sent are len + 4 long and the length byte counts every byte after itself |
| Radio.TxBodyIn | open-lst/common/radio.c:365-376 | the writes before the checksum keep the size of the buffer they are made in |
| Radio.EncodeIn | open-lst/common/radio.c:365-380 | the writes with the checksum keep the size of the buffer they are made in |
| Radio.TxBodyWrites | open-lst/common/radio.c:365-376 | the prepared buffer is the cleared buffer with the message copied in, then the flags, the footer device id and the length byte written over it in that order |
| Radio.ReceiveAsWrittenBelow255 | open-lst/common/radio.c:190-199 | for every length byte below 255 the receive path with the guard as written gives the same outcome as the corrected one |
| Radio.ReceiveLength255Overruns | open-lst/common/radio.c:190-246 | a length byte of 255 passes the guard as written: the corrected path rejects it as "other", while as written the checksum's high byte is read from index 255, one past the 255-byte buffer, and an accepted message is 252 bytes, one more than a command holds |
| Radio.SendAsWrittenUpTo251 | open-lst/common/radio.c:342-386 | for messages of up to 251 bytes the send path with the guard as written writes the same buffer as the corrected one and nothing past it |
| Radio.SendLength252Overruns | open-lst/common/radio.c:342-386 | a 252-byte message passes the guard as written: its length byte is 255 and the checksum's high byte is written at index 255, one past the 255-byte buffer |
| Radio.RadioLink.constructor | open-lst/common/radio.c:165-178 | the packet counters and the receive-tick count start at 0 with no packet pending |
| Radio.RadioLink.PacketArrives | open-lst/common/radio.c:250-265 | a received packet lands at the start of the receive buffer and is flagged complete |
| Radio.RadioLink.Listen | open-lst/common/radio.c:276-321 | any completed packet is dropped and the receiver is re-armed |
| Radio.RadioLink.GetMessage | open-lst/common/radio.c:181-247 | with no packet it returns 0 and changes nothing; a short or over-long packet counts as "other", a bad checksum counts as "checksum" and re-arms the receiver; a good packet leaves the message in `cmd`, returns its length and UART select, counts as good and resets the receive ticks |
| Radio.RadioLink.CopyOut | open-lst/common/radio.c:238-242 | the first `n` bytes of `cmd` become the device id from the footer followed by the packet's bytes from 2 on; the rest of `cmd` is untouched |
| Radio.RadioLink.WriteBody | open-lst/common/radio.c:365-376 | after the clear, the copy and the flags, footer and length writes, the transmit buffer is `TxBody` of the message |
| Radio.RadioLink.Send | open-lst/common/radio.c:324-418 | a message above 251 bytes changes nothing; otherwise the encoded buffer is transmitted, the receiver re-armed and the sent count raised by one |
| Radio.RadioLink.PrepareTx | open-lst/common/radio.c:365-386 | the transmit buffer becomes exactly `EncodeBuffer` of the message |
| Dispatch.Respond | openlst/common/input_handlers.c:46-142 | whatever the routing decides can be sent: a reply fits a command buffer, anything put on the air has a header |
| Dispatch.LocalAnsweredOnSamePort | openlst/common/input_handlers.c:58-66 | a message for this device (radio subsystem, this hwid or 0xFFFF) is never forwarded; its reply, when non-empty, goes back on the port it came in on, a radio reply with the incoming UART select |
| Dispatch.ForwardCrossesMedium | openlst/common/input_handlers.c:67-73 | a message for another device is forwarded unchanged, serial to air (UART select 0 from UART0, 1 from UART1) or air to UART1 whatever its flags, exactly when the image's forwarding switch is on and, for serial, it has a header |
| Dispatch.BootloaderOnlyAnswers | open-lst/common/board_defaults.h:139-168 | with every forwarding switch off, as in the bootloader, the device only ever sends replies |
| Dispatch.ShortSerialIgnored | openlst/common/input_handlers.c:56-57 | a serial message shorter than a header is neither handled nor forwarded |
| Dispatch.RadioMessagesHaveHeader | openlst/common/input_handlers.c:123-139 | every message the radio decodes has a header, so the radio path's short-message case cannot happen |
| Dispatch.Emit | openlst/common/input_handlers.c:63-72 | sending to a UART leaves the air alone, sending on the air leaves both UARTs alone, and staying silent changes nothing |
| Dispatch.Node.constructor | openlst/common/input_handlers.c:30-31 | both decoders initialised, nothing sent, no packet pending |
| Dispatch.Node.Answer | openlst/common/input_handlers.c:62 | the reply buffer holds the command handler's reply and its length is returned |
| Dispatch.Node.Route | openlst/common/input_handlers.c:56-73 | the wires change exactly as `Emit` of the `Respond` decision for the message; the decoders are untouched |
| Dispatch.Node.ReplyOn | openlst/common/input_handlers.c:58-66 | for a local message, the wires change as the `Respond` decision says |
| Dispatch.Node.SendBack | openlst/common/input_handlers.c:63-65 | the wires gain exactly the reply sent back the way the message came (`Back`), and the UART decoders are untouched |
| Dispatch.Node.Forward | openlst/common/input_handlers.c:67-73 | for a message for another device, the wires change as the `Respond` decision says |
| Dispatch.Node.Transmit | open-lst/common/radio.c:324-418 | the first len bytes of the buffer go on the air as `Emit` of a radio output says |
| Dispatch.Node.HandleUartRx | openlst/common/input_handlers.c:46-108 | the port is polled; with no message nothing is sent, otherwise the wires change as `Respond` decides for that message on that port |
| Dispatch.Node.HandleRfRx | openlst/common/input_handlers.c:111-142 | with no accepted packet only the codec's own re-arm happens; an accepted message re-arms the receiver first, then is answered or forwarded as `Respond` decides, using the packet's UART select |
| BootCommands.BootReply | open-lst/bootloader/commands.c:31-99 | the reply is a six-byte header, plus one ack byte for ping, erase and an accepted write-page |
| BootCommands.BootFlash | open-lst/bootloader/commands.c:69-93 | erase clears the application region, an accepted write-page splices its 128 bytes in, anything else leaves the 32 KiB flash as it was |
| BootCommands.ReplyEchoesRequest | open-lst/bootloader/commands.c:43-46 | every reply carries the flash hwid, the request's sequence number and the radio-out system byte |
| BootCommands.WritePageAckedIffInApp | open-lst/bootloader/commands.c:78-93 | write-page is acked with its page index exactly when the page lies in the application region (8..215); otherwise it is a header-only bootloader nack and flash is untouched |
| BootCommands.LastPageNeverWritten | open-lst/bootloader/commands.c:86-88 | page 255, on which the signature re-check hangs, is always refused as protected, so that branch never runs |
| BootCommands.UnknownOpcodeNacked | open-lst/bootloader/commands.c:48-52 | an opcode outside the table gets the default header-only common nack, leaves flash alone and does not restart the countdown |
| BootCommands.BootHandler.constructor | openlst/bootloader/updater.c:80 | the session countdown starts at COMMAND_WATCHDOG_DELAY |
| BootCommands.BootHandler.HandleCommand | open-lst/bootloader/commands.c:31-99 | writes exactly `BootReply` into the reply buffer, leaves flash as `BootFlash` says, and restarts the countdown for ping, erase and write-page only |
| BootCommands.BootHandler.Serve | open-lst/bootloader/commands.c:66-95 | for ping, erase and write-page the reply is exactly `BootReply` and flash becomes `BootFlash` |
| AppCommands.EncodeTimespec | openlst/radio/commands.c:80-84 | the timespec carried by a clock reading takes exactly 8 bytes of the reply |
| AppCommands.AppOutcome | openlst/radio/commands.c:31-152 | every reply the command table answers with is a header of 6 bytes plus at most the 78-byte telemetry record |
| AppCommands.ReplyEchoesRequest | openlst/radio/commands.c:42-45 | every reply or ranging packet carries this device's flash id, the request's sequence number and the radio-out message type |
| AppCommands.RebootAckedIffWithinCap | openlst/radio/commands.c:63-78 | a reboot without its 4-byte argument reboots at once; with it, the reply is ack exactly when the postponement is within the cap, and only then does the reboot deadline move to uptime plus the argument |
| AppCommands.GetTimeAnswersSetTime | openlst/radio/commands.c:80-95 | a clock reading is nacked until the clock has been set; afterwards it is a set-time reply whose argument, read back by set-time, gives the same seconds and milliseconds |
| AppCommands.RangingRepliesOverRadio | openlst/radio/commands.c:127-143 | ranging yields no reply; a ranging-ack packet with type 1 and version 1 goes out over the radio instead |
| AppCommands.AppHandler.constructor | openlst/radio/commands.c:31-41 | the handler is built over the given clock, scheduler, radio and board |
| AppCommands.AppHandler.HandleCommand | openlst/radio/commands.c:31-152 | the reply buffer and returned length are those of the command's outcome; ranging arms the precise-timing channel and sends the packet; the reboot deadline, the clock-set flag, the clock and the board's RF parameters change exactly as the opcode says |
| Command.BeginReply | openlst/radio/commands.c:42-52 | the reply header takes the flash id, the request's sequence number, the radio-out type and nack as its default opcode, and leaves the data field untouched |
| Command.SetReplyOp | open-lst/bootloader/commands.c:56-62 | setting the reply opcode leaves a header that is `ReplyHeader` with the new opcode, and leaves the data field untouched |
| AppCommands.AppHandler.Acknowledge | openlst/radio/commands.c:55-78 | ack, nack, set-callsign, set-time and reboot deliver their outcome, move the reboot deadline only on an accepted postponement, and set the clock only on set-time |
| AppCommands.AppHandler.Report | openlst/radio/commands.c:80-125 | get-time, get-telem and get-callsign deliver the clock reading, the telemetry snapshot and the callsign |
| AppCommands.AppHandler.Range | openlst/radio/commands.c:127-143 | ranging sends the acknowledgement with precise timing and returns a zero reply length |
| AppCommands.AppHandler.WriteRangingAck | openlst/radio/commands.c:129-133 | the reply buffer holds the ranging-ack header followed by type 1 and version 1 |
| AppCommands.AppHandler.Extend | openlst/radio/commands.c:146-149 | any other opcode goes to the board's handler, which sets the RF parameters for its own opcode |
| Board.Unpack | openlst/board/board.c:88-99 | freq0/1/2 are bits 0-7, 8-15 and 16-23 of the little-endian frequency word (bits 24-31 dropped); the channel-bandwidth fields are 2 bits, drate_e 4 bits and the deviation fields 3 bits each |
| Board.RfConfig.constructor | openlst/board/board.c:79-104 | the configuration holds the given radio parameters |
| Board.RfConfig.CustomCommands | openlst/board/board.c:79-104 | opcode 0x80 sets the reply opcode to ack, stores the unpacked parameters and returns the header length 6; any other opcode changes nothing and returns an unspecified length |
| Flash.LayoutConsistent | open-lst/bootloader/flash.c:29-39 | the flash layout meets every static assertion: application and storage page-aligned, application non-empty, after the bootloader, before storage and inside flash |
| Flash.StatusCode | open-lst/bootloader/flash.h:25-28 | the status byte is 0 exactly for FLASH_WRITE_OK |
| Flash.ClassifyRanges | open-lst/bootloader/flash.c:135-151 | page × 128 + 128 never passes 0x8000, so ERR_BAD_ADDR is unreachable; a page is written exactly when it lies in 8..215, the others being ERR_PROTECTED |
| Flash.WriteRegistersAreWordAddress | open-lst/bootloader/flash.c:82-84 | FADDRH:FADDRL hold the byte address divided by two |
| Flash.EraseRegisterSelectsPage | open-lst/bootloader/flash.c:52-55 | for a page-aligned address FADDRH selects that 1 KiB page |
| Flash.EraseTriggers | open-lst/bootloader/flash.c:45-74 | the erase loop issues one trigger per page |
| Flash.EraseApp | open-lst/bootloader/flash.c:42-76 | erasing keeps the flash 32 KiB long |
| Flash.FlashMemory.constructor | open-lst/bootloader/flash.c:17-25 | the flash holds the given image and no operation has been issued |
| Flash.FlashMemory.EraseAppRegion | open-lst/bootloader/flash.c:42-76 | the application region (0x0400-0x6BFF) becomes all 0xFF with 26 page-erase triggers; bootloader and storage are kept |
| Flash.FlashMemory.ErasePage | open-lst/bootloader/flash.c:47-73 | one 1 KiB page becomes 0xFF and nothing else changes |
| Flash.FlashMemory.Write | open-lst/bootloader/flash.c:78-132 | the buffer is written at the address, the word-address registers are set and the status is always OK |
| Flash.FlashMemory.WriteAppPage | open-lst/bootloader/flash.c:135-151 | the status is the page's classification; only an OK page is written, and a refused one changes nothing |
| Signature.XorBlock | openlst/bootloader/signature.c:136-145 | the chaining input is the byte-wise XOR of the previous value and the block |
| Signature.CbcMac | openlst/bootloader/signature.c:119-146 | without blocks the MAC is the initial vector; for one block it is the encryption of that block XOR the vector |
| Signature.CbcEncrypt | open-lst/tools/openlst_tools/sign_radio.py:52-56 | the host's CBC encryption yields one ciphertext block per plaintext block |
| Signature.CbcMacIsLastCbcBlock | openlst/bootloader/signature.c:132-145 | the CBC-MAC the device computes (CBC-MAC mode for all but the last block, CBC for the last) is the last block of the host signer's CBC ciphertext, for any block cipher |
| Signature.SignedRegionIsBlockAligned | openlst/bootloader/signature.c:26 | the signed region from FLASH_APP_START to FLASH_APP_SIGNATURE is exactly 1663 whole AES blocks |
| Signature.AppBlocks | openlst/bootloader/signature.c:127-129 | the application is cut into 1663 sixteen-byte blocks |
| Signature.SignedByHostKey | open-lst/tools/openlst_tools/sign_radio.py:52-56 | an image whose stored signature is the host signer's last CBC block under one of the stored keys is accepted |
| Signature.SomeKeyBelowMeans | openlst/bootloader/signature.c:113-154 | the match flag accumulated over the first n keys is set exactly when one of those keys matches |
| Signature.AppSigned | openlst/bootloader/signature.c:113-155 | the image is accepted exactly when the first, the second or the third stored key signs it |
| Signature.AppValid | openlst/bootloader/signature.c:44-156 | all three keys are tried with no early exit, and the result is true exactly when some stored key's CBC-MAC (zero IV) of the application equals the stored signature |
| Signature.KeyMac | openlst/bootloader/signature.c:113-148 | one key's pass leaves in `signature` the CBC-MAC of the application blocks under that key with an all-zero IV |
| Updater.Session | openlst/bootloader/updater.c:72-90 | the number of polling rounds is the one `SessionRounds` gives for the countdown starting at COMMAND_WATCHDOG_DELAY |
| Updater.QuietRounds | openlst/bootloader/updater.c:80-89 | with no commands, a countdown starting at t runs t - 1 rounds (pre-decrement) |
| Updater.QuietSession | openlst/bootloader/updater.c:80-89 | an idle session lasts 44999 rounds |
| Updater.RestartExtends | open-lst/bootloader/commands.c:95-97 | a keep-alive command in round i restarts the full countdown after that round |
| Timers.ReadThenSet | openlst/radio/timers.c:56-86 | a reading of a running clock (ms < 1000, timer count < T1_PERIOD) has fewer than 10^9 nanoseconds, and setting the clock from it restores the same millisecond count |
| Timers.AddTime | openlst/radio/timers.c:88-95 | the sum of two normalised times has at most 10^9 nanoseconds (one single carry) |
| Timers.SubtractTime | openlst/radio/timers.c:97-104 | the difference of two normalised times is normalised |
| Timers.AddKeepsTotal | openlst/radio/timers.c:88-95 | on normalised operands the sum is exact up to the 32-bit wrap of the seconds |
| Timers.AddExactSecondUnnormalised | openlst/radio/timers.c:90 | nanoseconds summing to exactly 10^9 are not carried, leaving an unnormalised result |
| Timers.SubtractUndoesAdd | openlst/radio/timers.c:88-104 | subtracting t2 from t1 + t2 gives back t1, including the unnormalised exact-second case |
| Timers.TicksWithinSecond | openlst/radio/timers.c:154-159 | within a second, n ticks add n milliseconds, count timer_count_ms down without going below 0, and leave seconds and uptime alone |
| Timers.SecondRollover | openlst/radio/timers.c:160-164 | the tick that reaches 1000 ms resets the milliseconds to 0 and raises seconds and uptime by one |
| Timers.TicksLast | openlst/radio/timers.c:154-164 | n ticks are n - 1 ticks followed by one more |
| Timers.MillisecondTick | openlst/radio/timers.c:154-164 | the milliseconds stay below 1000; within a second only they advance by one; the thousandth resets them and raises seconds and uptime by one, modulo 2^32; the countdown falls by one and stops at 0 |
| Timers.StrobeOnThirdEvent | openlst/radio/timers.c:121-177 | after `timers_trigger_for_RF` the transmitter is strobed on exactly the third channel-1 interrupt, which also disables the channel |
| Timers.Clock.constructor | openlst/radio/timers.c:35-41 | uptime, clock and countdown start at 0 and the clock is not set |
| Timers.Clock.GetTime | openlst/radio/timers.c:56-68 | reports the clock's seconds and ms·10^6 + count·T1_TICK nanoseconds; on a running clock that is normalised and keeps the milliseconds |
| Timers.Clock.SetTime | openlst/radio/timers.c:78-86 | keeps ns / 10^6 (no range check) as milliseconds and the seconds, and marks the clock set |
| Timers.Clock.WatchForRf | openlst/radio/timers.c:106-119 | channel 1 is put in capture mode with its interrupt enabled |
| Timers.Clock.TriggerForRf | openlst/radio/timers.c:121-151 | channel 1 is put in compare mode with RF_PRECISE_TIMING_DELAY (3) interrupts to go |
| Timers.Clock.Interrupt | openlst/radio/timers.c:153-180 | a channel-0 flag advances the clock by one millisecond tick; otherwise a channel-1 flag disables a capture or counts the delay down and strobes at 0; clock set-ness never changes |
| Schedule.Postpone | open-lst/radio/schedule.c:37-45 | a request above the one-week cap is refused with status 1 and leaves the deadline alone; any other is accepted with status 0 |
| Schedule.RebootDue | open-lst/radio/schedule.c:49 | a deadline of 0 never reboots; a due reboot needs a non-zero uptime; at the largest uptime every non-zero deadline is due |
| Schedule.PostponeDelaysReboot | open-lst/radio/schedule.c:37-51 | after an accepted postponement that does not wrap, the reboot is due exactly once the uptime has advanced by the requested seconds; a deadline of 0 never fires |
| Schedule.RxTick | open-lst/radio/schedule.c:62-65 | the receiver is re-armed exactly when the pre-incremented 16-bit tick count reaches MAX_RX_TICKS |
| Schedule.RearmedEveryFiftySteps | open-lst/radio/schedule.c:54-66 | with no packet received, the receiver is re-armed once every 50 ticks (5 s) and the counter is the remainder |
| Schedule.Scheduler.constructor | open-lst/radio/schedule.c:29-35 | the first deadline is AUTO_REBOOT_SECONDS after the current uptime |
| Schedule.Scheduler.PostponeReboot | open-lst/radio/schedule.c:37-45 | the new deadline and status are those of `Postpone` |
| Schedule.Scheduler.HandleEvents | open-lst/radio/schedule.c:47-68 | a due reboot preempts everything; otherwise an expired 100 ms countdown is reloaded and the tick counter steps, re-arming the receiver at its limit, and nothing changes when the countdown has not expired |
| StringX.MemCmpMeansDiffer | open-lst/common/stringx.c:48-53 | `memcmpx` reports a difference exactly when the two areas are unequal |
| StringX.OrXorZeroIffEqual | open-lst/common/stringx.c:57-64 | the OR of the XORs of two areas is zero exactly when the areas are equal |
| StringX.MemCmpAgree | open-lst/common/stringx.c:48-64 | the constant-time comparison gives the same verdict as the early-exit one |
| StringX.MemCpyX | open-lst/common/stringx.c:31-36 | the destination range receives the source bytes; everything outside it is unchanged |
| StringX.MemSetX | open-lst/common/stringx.c:39-44 | every byte of the destination range becomes the value; everything outside it is unchanged |
| StringX.MemCmpX | open-lst/common/stringx.c:48-53 | returns 1 exactly when the two ranges differ |
| StringX.MemCmpXCt | open-lst/common/stringx.c:57-64 | returns non-zero exactly when the two ranges differ, without an early exit |
| StringX.CStrLen | open-lst/common/stringx.c:67-73 | the string length is the index of the first NUL byte |
| StringX.StrCpyLenX | open-lst/common/stringx.c:67-73 | copies the string and its terminator, returns its length, and leaves the rest of the destination unchanged |
| HostCommands.NextSeqnum | open-lst/tools/openlst_tools/commands.py:62-63 | the next sequence number always lies in 16 to 63999 |
| HostCommands.NextSeqnumCycles | open-lst/tools/openlst_tools/commands.py:62-63 | within that range the sequence number counts up by one and wraps from 63999 to 16 |
| HostCommands.IsReplyToCommand | open-lst/tools/openlst_tools/commands.py:65-68 | a message answers a command exactly when its first four bytes are the command's hwid and sequence number, little-endian |
| HostCommands.IsReplySameFields | open-lst/tools/openlst_tools/commands.py:65-68 | a message answers another exactly when both have four bytes or more and they carry the same little-endian hwid and the same sequence number |
| HostCommands.Frame | open-lst/tools/openlst_tools/commands.py:198-204 | a message is framed as 0x22 0x69, its length, then the message itself; a message of 256 bytes or more makes `chr` raise |
| HostCommands.FindHeader | open-lst/tools/openlst_tools/commands.py:141-143 | the header search returns the first position of 0x22 0x69, or reports that there is none |
| HostCommands.FromData | open-lst/tools/openlst_tools/commands.py:151-153 | a message is answered exactly when the frame's data is complete, and it is the first `length` bytes of the data |
| HostCommands.NoHeaderBeforeStart | open-lst/tools/openlst_tools/commands.py:141-143 | after bytes holding no header, the header of a frame is found where it starts, even when the junk ends in 0x22 |
| HostCommands.ScanFrame | open-lst/tools/openlst_tools/commands.py:141-154 | a framed message after any bytes without a header is parsed whole, and the bytes after it stay in the parser |
| HostCommands.Scan | open-lst/tools/openlst_tools/commands.py:141-153 | without a header everything stays and nothing is answered; an answer is the message right after the first header, as long as its length byte says, lying wholly inside the buffer |
| HostCommands.FrameParses | open-lst/tools/openlst_tools/commands.py:137-154 | a freshly primed parser answers with the framed message itself: parsing inverts framing |
| HostCommands.RemainderKept | open-lst/tools/openlst_tools/commands.py:153-154 | after a message is answered, the next send continues with the bytes that followed it |
| HostCommands.TwoFrames | open-lst/tools/openlst_tools/commands.py:137-154 | two frames sent back to back are answered by two sends, the second needing no new bytes |
| HostCommands.EmptyFrame | open-lst/tools/openlst_tools/commands.py:144-153 | a length byte of 0 yields the empty message |
| HostCommands.EspParser.constructor | open-lst/tools/openlst_tools/commands.py:137-139 | the primed parser waits for a header with an empty buffer |
| HostCommands.EspParser.Send | open-lst/tools/openlst_tools/commands.py:137-154 | one send appends the chunk where the generator waits and runs it to its next yield, as the parser's transition function says |
| HostCommands.FirstReply | open-lst/tools/openlst_tools/commands.py:92-100 | the accepted reply is a non-empty polled message that answers the command, and there is one exactly when some polled message qualifies |
| HostCommands.AsText | open-lst/tools/openlst_tools/commands.py:98-100 | a reply is turned into text exactly when there is one |
| HostCommands.Retry | open-lst/tools/openlst_tools/commands.py:112-124 | the retry loop makes at most `limit` attempts, uses all of them only without a reply, and stops at the first attempt that is answered |
| HostCommands.AttemptLimit | open-lst/tools/openlst_tools/commands.py:116 | with a retry count the loop makes that many attempts plus one; without one it makes at least as many as the supplied poll windows |
| HostCommands.Repeat | open-lst/tools/openlst_tools/commands.py:116-122 | the messages sent by the retry loop are that many copies of the same message |
| HostCommands.CommandHandler.constructor | open-lst/tools/openlst_tools/commands.py:54-60 | a new handler starts with sequence number 16 and has sent nothing |
| HostCommands.CommandHandler.IncSeqnum | open-lst/tools/openlst_tools/commands.py:62-63 | the sequence number takes its next value and nothing else changes |
| HostCommands.CommandHandler.SendCmdOnce | open-lst/tools/openlst_tools/commands.py:82-100 | a command that does not translate raises before anything is sent; otherwise the message is sent once and the first reply among the polled messages is returned as text |
| HostCommands.CommandHandler.SendMessage | open-lst/tools/openlst_tools/commands.py:89-100 | the message is appended to what was sent and the result is the first reply among the polled messages |
| HostCommands.CommandHandler.SendCmd | open-lst/tools/openlst_tools/commands.py:112-124 | the sequence number steps once; the same message is resent until a reply comes or the attempts are used up, and the result is that reply's text |
| HostCommands.CommandHandler.Attempts | open-lst/tools/openlst_tools/commands.py:116-124 | the loop's reply and attempt count are those of the retry function, and the message was sent once per attempt |
| HostCommands.CommandHandler.SendCmdResp | open-lst/tools/openlst_tools/commands.py:126-134 | the result is the expected text exactly when the reply equals it; otherwise ResponseError carries the reply received |
| Handler.HandlePacket | tools/handler.py:65-75 | a packet is split exactly when it has at least seven bytes; a shorter one raises IndexError |
| Handler.PacketBytes | tools/handler.py:65-73 | a packet's bytes are its seven header bytes followed by its data |
| Handler.HandlePacketBytes | tools/handler.py:65-73 | splitting the bytes of a packet gives back that packet: the big-endian hwid and sequence number are read back as written |
| Handler.BytesOfHandledPacket | tools/handler.py:65-73 | joining the fields of a split packet gives back the raw bytes |
| Handler.StepValid | tools/handler.py:31-63 | each received byte keeps the receive state consistent (nothing buffered outside a frame, the buffer holding the length byte and no more data than announced); a completed frame is the length byte followed by exactly that many bytes, never a zero length |
| Handler.Step | tools/handler.py:34-63 | a byte outside a frame is reported as unexpected and changes nothing; a byte completing a frame is appended to the buffer, closes the frame and resets the position; otherwise the buffer is kept or grows by that byte |
| Handler.Feed | tools/handler.py:31-63 | each byte yields at most one packet or one unexpected byte, and without an exception the bytes queued, reported and buffered together are no more than the bytes buffered before plus the bytes received |
| Handler.CollectBody | tools/handler.py:43-60 | once a frame's length byte is in, collecting the rest of its data completes the frame and reading goes on from the idle state |
| Handler.FrameFromIdle | tools/handler.py:31-63 | a frame with a non-zero length read from the idle state is queued as one packet, or raises when shorter than seven bytes, and the bytes after it are read from the idle state again |
| Handler.ZeroLengthSwallows | tools/handler.py:48-60 | inside a frame whose length byte is 0, every later byte is buffered and nothing is queued or reported |
| Handler.ZeroLengthFrame | tools/handler.py:48-60 | a frame announced with length 0 never completes |
| Handler.LoneStartWaits | tools/handler.py:35-63 | a 0x22 not followed by 0x69 is remembered: the next byte is reported as unexpected and a 0x69 after it still opens a frame |
| Handler.ConnectionLostRestarts | tools/handler.py:24-41 | the announced length kept over a lost connection makes no difference to the next frame |
| Handler.LstProtocol.constructor | tools/handler.py:11-19 | a new protocol is idle with an empty queue |
| Handler.LstProtocol.ConnectionLost | tools/handler.py:24-29 | the buffer is emptied, the frame is closed and the position reset, and the announced length is kept |
| Handler.LstProtocol.StepByte | tools/handler.py:34-63 | one byte moves the state as the receive transition function says |
| Handler.LstProtocol.DataReceived | tools/handler.py:31-63 | the final state, the queued packets, the unexpected bytes and the exception are those of feeding the data to the receive state machine |
| OpenLstHost.CKind | tools/openlst.py:19-28 | a struct format exists exactly for sizes 1, 2 and 4, with that width and the requested signedness |
| OpenLstHost.PackCInt | tools/openlst.py:33-44 | packing succeeds exactly for a supported size and a value in the C type's range, and gives `size` bytes |
| OpenLstHost.UnpackCInt | tools/openlst.py:19-30 | unpacking succeeds exactly for a supported size and exactly `size` bytes |
| OpenLstHost.CIntRoundTrip | tools/openlst.py:19-44 | every value `pack_cint` accepts is read back by `unpack_cint` |
| OpenLstHost.PackU32IsLE32 | tools/openlst.py:33-44 | unsigned 32-bit packing is the firmware's little-endian `uint32_t` layout |
| OpenLstHost.SendFrame | tools/openlst.py:155-166 | a frame is built exactly when the length, opcode, hwid and sequence number fit their fields; it is 0x22 0x69, the length of what follows, the header and the message |
| OpenLstHost.SentBody | tools/openlst.py:160-164 | the frame after its length byte is the message plus six header bytes |
| OpenLstHost.SentFrameReceived | tools/openlst.py:155-166 | a frame this driver writes is recognised by the serial handler as one packet with the same hwid, sequence number, opcode and message, and the bytes after it are read as before |
| OpenLstHost.FirmwareReadsSwapped | tools/openlst.py:160-161 | the firmware, reading its header little-endian, sees the big-endian hwid and sequence number byte-swapped |
| OpenLstHost.AddressedRadio | tools/openlst.py:155-166 | a command reaches the radio with a given flash id exactly when the driver was given that id, or the local id, byte-swapped |
| OpenLstHost.ReplySeqnumMatches | tools/openlst.py:116-173 | the firmware's reply carries the same sequence-number bytes, so the handler reads back the number the driver used |
| OpenLstHost.FirstWithSeqnum | tools/openlst.py:119-124 | the search finds the earliest packet with the sequence number, or reports that none has it |
| OpenLstHost.FirstWithCommand | tools/openlst.py:125-130 | the search finds the earliest packet with the opcode, or reports that none has it |
| OpenLstHost.SelectPacket | tools/openlst.py:116-132 | a packet taken leaves the queue and the queue loses nothing else; when none is taken the queue is unchanged |
| OpenLstHost.Pop | tools/openlst.py:122 | removing the i-th packet keeps the others in order and the queue loses exactly that packet |
| OpenLstHost.SelectBySeqnum | tools/openlst.py:119-124 | a reply asked for by a non-zero sequence number is the earliest packet with it, taken from the queue, and there is one exactly when some packet has that number |
| OpenLstHost.SeqnumZeroIgnored | tools/openlst.py:119-132 | sequence number 0 is false in Python, so asking for it selects by opcode, or else the oldest packet |
| OpenLstHost.TelemOffsetsMatch | tools/openlst.py:243-268 | every field the driver reads sits at the packed offset of the matching member of the firmware's telemetry record, with the same size and signedness, and the record is 78 bytes |
| OpenLstHost.EncodedAt | tools/openlst.py:253-267 | each member of an encoded record sits at its offset |
| OpenLstHost.DecodeFields | tools/openlst.py:253-267 | a successful decode gives one value per field |
| OpenLstHost.FieldDecodes | tools/openlst.py:253-267 | the field read at a member's offset gives back that member's value |
| OpenLstHost.DecodeFieldsOk | tools/openlst.py:253-267 | fields that each read back a value decode to those values |
| OpenLstHost.TelemRoundTrip | tools/openlst.py:243-271 | decoding the driver's fields from a telemetry record the firmware encoded gives back the values of its members after the reserved byte, up to the last packet counter |
| OpenLstHost.DecodeTelemReply | tools/openlst.py:247-268 | telemetry is decoded only from a reply that came and is a telemetry message, with one value per field; otherwise AssertionError |
| OpenLstHost.DecodeTimeReply | tools/openlst.py:216-226 | a missing reply raises AssertionError; a NACK gives nothing; otherwise the two 32-bit words are the seconds and nanoseconds |
| OpenLstHost.TimeRoundTrip | tools/openlst.py:212-241 | the payload `set_time` sends is read back by `get_time`'s decoding as the same seconds and nanoseconds |
| OpenLstHost.SetTimePayload | tools/openlst.py:232-235 | the set-time payload is built exactly when both values fit 32 unsigned bits, and is their two little-endian words |
| OpenLstHost.RfParamsPayload | tools/openlst.py:319-354 | the RF payload, when the fields pass their range assertions and the frequency packs, is the 11 bytes the board's command expects |
| OpenLstHost.RfParamsReachBoard | tools/openlst.py:346-354 | the board unpacks exactly the register fields the driver packed |
| OpenLstHost.InitialSeqnumOverflows | tools/openlst.py:92 | the draw 65536 is possible as written, and then the first send raises `struct.error` |
| OpenLstHost.InitialSeqnumPacks | tools/openlst.py:92 | every draw from 0 to 65535 packs, and stepping it modulo 65536 keeps it packable |
| OpenLstHost.SendSpec | tools/openlst.py:155-173 | a send returns the sequence number it used, writes its frame and advances the counter within 16 bits; when the frame cannot be built nothing changes |
| OpenLstHost.RequestGetsOwnReply | tools/openlst.py:186-210 | a request with a non-zero sequence number gets a packet carrying that number exactly when one has arrived, taken from the queue; otherwise it gets nothing and the packets stay queued |
| OpenLstHost.RequestWithSeqnumZero | tools/openlst.py:119-132 | a request sent with sequence number 0 takes the oldest packet, whatever it answers |
| OpenLstHost.RequestSpec | tools/openlst.py:186-189 | a request raises exactly when its frame cannot be built, and then changes nothing; otherwise the frame is written, the sequence number steps modulo 65536, and the reply, if any, is taken out of the packets that were queued or arrived, the others staying |
| OpenLstHost.ExpectCommand | tools/openlst.py:206-208 | the reply assertion holds exactly when a reply came with the expected opcode, and otherwise raises AssertionError |
| OpenLstHost.ErrorOf | tools/openlst.py:155-184 | an operation raised exactly when its result is an error |
| OpenLstHost.OpenLst.constructor | tools/openlst.py:48-94 | the driver starts with its hwid, the drawn sequence number and no packets or frames |
| OpenLstHost.OpenLst.Send | tools/openlst.py:155-173 | the new state and result are those of the send function |
| OpenLstHost.OpenLst.Request | tools/openlst.py:186-189 | a send followed by the search for its reply among the packets that arrived, as the request function specifies |
| OpenLstHost.OpenLst.Receive | tools/openlst.py:175-176 | the next ASCII packet is taken from the queue |
| OpenLstHost.OpenLst.Transmit | tools/openlst.py:178-181 | a message longer than 245 bytes raises AssertionError and sends nothing; otherwise it is sent as ASCII to the destination |
| OpenLstHost.OpenLst.Reboot | tools/openlst.py:183-184 | one reboot frame is sent to the radio |
| OpenLstHost.OpenLst.BootloaderPing | tools/openlst.py:186-189 | a ping is sent and its reply is the one carrying its sequence number |
| OpenLstHost.OpenLst.FlashErase | tools/openlst.py:191-194 | an erase is sent and its reply is the one carrying its sequence number |
| OpenLstHost.OpenLst.FlashProgramPage | tools/openlst.py:196-210 | a page that is neither empty nor 128 bytes raises AssertionError and a page number over 255 raises ValueError, both before sending; otherwise the page is sent after its number and, when checked, a reply other than the bootloader's ACK raises AssertionError |
| OpenLstHost.OpenLst.GetTime | tools/openlst.py:212-226 | the result is the time decoded from the reply to the clock request |
| OpenLstHost.OpenLst.SetTime | tools/openlst.py:228-241 | values that do not pack raise before anything is sent; otherwise the two words are sent and the reply must be an ACK |
| OpenLstHost.OpenLst.GetTelem | tools/openlst.py:243-271 | the result is the telemetry decoded from the reply |
| OpenLstHost.OpenLst.SetRfParams | tools/openlst.py:273-360 | fields failing their assertions raise before anything is sent; otherwise the payload is sent and the reply must be an ACK |
| OpenLstHost.OpenLst.PacketsAvailable | tools/openlst.py:108-114 | the newly queued packets are appended and their total count returned |
| OpenLstHost.OpenLst.GetPacket | tools/openlst.py:116-132 | the packet returned and the queue left are those of the selection function over the old and newly queued packets |
| OpenLstHost.OpenLst.CleanPackets | tools/openlst.py:146-153 | with an opcode, exactly the packets of other opcodes stay, in order; without one, the queue is emptied |
| OpenLstHost.Without | tools/openlst.py:151 | the packets kept are those of other opcodes, and every such packet is kept |
| Translator.TextBytes | open-lst/tools/openlst_tools/translator.py:182-183 | a string argument's bytes are its characters' codes, one byte each |
| Translator.BytesText | open-lst/tools/openlst_tools/translator.py:185-186 | bytes read as text give one character per byte with that code |
| Translator.TextBytesRoundTrip | open-lst/tools/openlst_tools/translator.py:182-186 | text and bytes convert into each other without loss |
| Translator.HexText | open-lst/tools/openlst_tools/translator.py:337-349 | the hex text of bytes is `hexlify` of them |
| Translator.DigitChar | open-lst/tools/openlst_tools/translator.py:246 | a decimal digit is printed as the character of that value |
| Translator.Digits | open-lst/tools/openlst_tools/translator.py:246 | `str` of a natural number is a non-empty run of digits without a leading zero |
| Translator.DigitsValue | open-lst/tools/openlst_tools/translator.py:246 | the printed digits of a number read back as that number |
| Translator.DecimalTextParses | open-lst/tools/openlst_tools/translator.py:246 | printing an integer and evaluating the text gives the integer back |
| Translator.PackLE | open-lst/tools/openlst_tools/translator.py:99 | `struct.pack` of an integer kind gives exactly the kind's width in bytes |
| Translator.UnpackLE | open-lst/tools/openlst_tools/translator.py:104 | the unsigned value of little-endian bytes is below 256 to the number of bytes |
| Translator.UnpackPackLE | open-lst/tools/openlst_tools/translator.py:99-105 | unpacking packed bytes gives the value modulo 256 to the width |
| Translator.WidthBounds | open-lst/tools/openlst_tools/translator.py:108-147 | each integer kind's range is exactly 256 to its width values, centred on zero when signed and from zero when unsigned |
| Translator.PackRoundTrip | open-lst/tools/openlst_tools/translator.py:93-105 | unpacking what was packed gives back every value the kind can hold |
| Translator.NewIntegerArg | open-lst/tools/openlst_tools/translator.py:64-75 | a given minimum below the type's raises, a given maximum above the type's raises, and otherwise the bounds only narrow the type's |
| Translator.PlainInteger | open-lst/tools/openlst_tools/translator.py:108-147 | an integer argument with no given bounds takes the type's own |
| Translator.NewHexArg | open-lst/tools/openlst_tools/translator.py:151-156 | a hex argument is built exactly when the pad mode is left, right or none |
| Translator.RemoveSpaces | open-lst/tools/openlst_tools/translator.py:159 | the text given to `unhexlify` holds no spaces |
| Translator.Zeros | open-lst/tools/openlst_tools/translator.py:164 | the padding is that many zero bytes |
| Translator.IntegerToBytesSpec | open-lst/tools/openlst_tools/translator.py:93-99 | an integer token is encoded exactly when it is a literal within the argument's bounds, then in the type's width; above the maximum it raises "too large", below the minimum "too small" |
| Translator.HexToBytesSpec | open-lst/tools/openlst_tools/translator.py:158-169 | a hex token is encoded when its digits, spaces ignored, decode to at most the argument's length, not shorter with pad none, padded with zero bytes on the chosen side |
| Translator.FixedWidthBytes | open-lst/tools/openlst_tools/translator.py:93-169 | an integer or hex argument always encodes to its fixed width |
| Translator.ArgRoundTrip | open-lst/tools/openlst_tools/translator.py:93-186 | reading back an encoded argument gives the token's value and leaves exactly the bytes that follow; for a string argument when nothing follows |
| Translator.CanonicalReencodes | open-lst/tools/openlst_tools/translator.py:93-174 | the printed value of an integer or hex argument, given back as a token, encodes to the same bytes |
| Translator.ArgToBytes | open-lst/tools/openlst_tools/translator.py:93-184 | a string argument always encodes, to as many bytes as its text; an integer argument that encodes gives its width in bytes, a hex argument its declared length |
| Translator.ArgFromBytes | open-lst/tools/openlst_tools/translator.py:101-187 | an integer or hex argument decodes exactly when enough bytes remain and then leaves exactly the bytes after its width; a string argument always decodes and leaves nothing |
| Translator.NoSpaceHex | open-lst/tools/openlst_tools/translator.py:159 | hex text holds no white space, so removing spaces leaves it unchanged |
| Translator.WordEnd | open-lst/tools/openlst_tools/translator.py:324 | a word runs to the next white space or the end of the text |
| Translator.Words | open-lst/tools/openlst_tools/translator.py:324 | the words of `split()` are non-empty and hold no white space |
| Translator.WordsOfJoin | open-lst/tools/openlst_tools/translator.py:247 | splitting space-joined words gives the words back |
| Translator.EncodeArgs | open-lst/tools/openlst_tools/translator.py:217-233 | when the arguments are encoded, the tokens number between the required and the total count and each converts |
| Translator.EncodeArgsSpec | open-lst/tools/openlst_tools/translator.py:217-233 | the arguments are encoded exactly when the tokens number between the required and the total count and each converts; too many tokens raise, a missing required argument raises, and the bytes are the tokens' encodings in order |
| Translator.TokensToBytes | open-lst/tools/openlst_tools/translator.py:217-233 | the loop gives the opcode followed by the arguments' bytes, or the error the encoding function specifies |
| Translator.EncodeCommand | open-lst/tools/openlst_tools/translator.py:217-233 | an encoded command starts with the command's opcode, and it raises exactly when encoding its arguments raises |
| Translator.DecodeArgs | open-lst/tools/openlst_tools/translator.py:235-247 | decoding gives a value for at least every required argument and at most one per argument |
| Translator.BytesToString | open-lst/tools/openlst_tools/translator.py:235-247 | the text raises exactly when, and with the same error as, decoding the arguments; a command without arguments gives the empty text |
| Translator.ShowAll | open-lst/tools/openlst_tools/translator.py:246-247 | each value is printed by `str` |
| Translator.CanonicalAll | open-lst/tools/openlst_tools/translator.py:238-246 | one value is read back per supplied token |
| Translator.DecodeEncodeArgs | open-lst/tools/openlst_tools/translator.py:217-247 | decoding the encoded arguments reads back every supplied token's value in order, and the optional arguments left out yield nothing |
| Translator.FindByKey | open-lst/tools/openlst_tools/translator.py:310 | a key lookup finds a command with that key, or reports that none has it |
| Translator.FindByOpcode | open-lst/tools/openlst_tools/translator.py:309 | an opcode lookup finds a command with that opcode, or reports that none has it |
| Translator.TableWellFormed | open-lst/tools/openlst_tools/translator.py:250-306 | no two commands of the table share an opcode or a key, and every argument list reads back |
| Translator.FindOwnOpcode | open-lst/tools/openlst_tools/translator.py:309 | with distinct opcodes, each command is found under its own opcode |
| Translator.FindOwnKey | open-lst/tools/openlst_tools/translator.py:310 | with distinct keys, each command is found under its own key |
| Translator.IntFromBytes | open-lst/tools/openlst_tools/translator.py:351-353 | reading a 16-bit number succeeds exactly on two bytes |
| Translator.IntFromBytesInverts | open-lst/tools/openlst_tools/translator.py:351-353 | `int_from_bytes` reads back the sequence number `bytes_from_string` packs |
| Translator.BytesFromStringErrors | open-lst/tools/openlst_tools/translator.py:321-333 | an hwid or sequence number outside 16 bits raises `struct.error`; fewer than two words, a system word other than "lst" and an unknown command key each raise, in that order |
| Translator.BytesFromStringLayout | open-lst/tools/openlst_tools/translator.py:321-335 | a built message is the hwid and sequence number little-endian, the system byte, the named command's opcode and its arguments' bytes |
| Translator.BytesFromString | open-lst/tools/openlst_tools/translator.py:321-335 | an hwid or sequence number outside 16 bits raises `struct.error`; a built message has at least six bytes: the hwid and sequence number little-endian, the LST system byte and the opcode of the command named by the second word, which exists |
| Translator.StringFromBytes | open-lst/tools/openlst_tools/translator.py:337-349 | the text starts with "lst " exactly when the message has at least six bytes and its system byte is LST |
| Translator.MessageFields | open-lst/tools/openlst_tools/translator.py:321-353 | the built message is read back field by field, the sequence number as `int_from_bytes` reads it |
| Translator.StringOfBytesOfString | open-lst/tools/openlst_tools/translator.py:321-349 | a message built from a command line reads back as "lst", the command's key and the printed values of the given arguments |
| Translator.WordsOfCommandLine | open-lst/tools/openlst_tools/translator.py:344-345 | the printed command line splits into "lst", the key and the argument words |
| Translator.ShownReencode | open-lst/tools/openlst_tools/translator.py:93-174 | the printed values of fixed-width arguments are single words that encode as the original tokens did |
| Translator.EncodeArgsPointwise | open-lst/tools/openlst_tools/translator.py:217-233 | tokens that encode alike argument by argument encode alike as a list |
| Translator.BytesOfStringOfBytes | open-lst/tools/openlst_tools/translator.py:321-349 | for a command whose arguments all have fixed widths, translating the printed text of a message back with the same hwid and sequence number rebuilds the message byte for byte |
| IntelHex.RStrip | open-lst/tools/openlst_tools/intel_hex.py:56 | stripping trailing white space keeps a prefix of the line |
| IntelHex.SplitJoin | open-lst/tools/openlst_tools/intel_hex.py:97-99 | splitting the joined lines of the writer gives the lines back when none holds a newline and the last is not empty |
| IntelHex.HexBytes | open-lst/tools/openlst_tools/intel_hex.py:50-52 | a run of hex pairs read as bytes gives exactly as many bytes as asked for |
| IntelHex.Erased | open-lst/tools/openlst_tools/intel_hex.py:31 | the reader's starting image is erased flash, 0xFF bytes of the memory size |
| IntelHex.ParseHexFile | open-lst/tools/openlst_tools/intel_hex.py:20-69 | the reader's loop returns the image or the error that applying the lines in turn to the erased image specifies: each data record replaces its slice, the end-of-file record returns, a bad line or a missing end-of-file raises ValueError |
| IntelHex.ParseRecord | open-lst/tools/openlst_tools/intel_hex.py:36-68 | an empty line or one not starting with ':' raises; a parsed record comes from a line of at least nine characters starting with ':' and has a 16-bit address and fewer than 256 data bytes |
| IntelHex.ParseLines | open-lst/tools/openlst_tools/intel_hex.py:34-69 | applying lines never shrinks the image, and a line error names one of the lines applied |
| IntelHex.ParseHex | open-lst/tools/openlst_tools/intel_hex.py:20-69 | the image read is at least the memory size, and a line error names a line of the text, counting from 1 |
| IntelHex.RecordPastEndGrowsImage | open-lst/tools/openlst_tools/intel_hex.py:61 | a record reaching past the end of the image lengthens it instead of being refused |
| IntelHex.IsErasedAll | open-lst/tools/openlst_tools/intel_hex.py:79 | the writer's skip test holds exactly when every byte of the chunk is 0xFF |
| IntelHex.RStripErasedShape | open-lst/tools/openlst_tools/intel_hex.py:77-78 | truncation keeps a prefix of the chunk, removes only 0xFF bytes and leaves no trailing 0xFF |
| IntelHex.RecordBytes | open-lst/tools/openlst_tools/intel_hex.py:81-95 | a data record is its data plus five bytes: count, address high and low, type and checksum |
| IntelHex.RecordLineFields | open-lst/tools/openlst_tools/intel_hex.py:89-95 | a data line is a colon, two digits of count, four of address, two of type, the data in upper-case hex and two of checksum |
| IntelHex.Chunk | open-lst/tools/openlst_tools/intel_hex.py:76-78 | a chunk is never longer than the line size |
| IntelHex.DumpRecords | open-lst/tools/openlst_tools/intel_hex.py:74-97 | the writer always emits at least the end-of-file record |
| IntelHex.DumpRecordsWritable | open-lst/tools/openlst_tools/intel_hex.py:74-97 | for an image of at most 64 KiB every record has a 16-bit address and fewer than 256 bytes, and the last is the end-of-file record |
| IntelHex.DumpHexFile | open-lst/tools/openlst_tools/intel_hex.py:72-99 | the writer's loop produces the text specified by formatting the records of the image's chunks, skipped or truncated as asked, and joining them with newlines |
| IntelHex.FormatRecord | open-lst/tools/openlst_tools/intel_hex.py:81-97 | a record line starts with ':' and has 11 characters plus two per data byte |
| IntelHex.DumpHex | open-lst/tools/openlst_tools/intel_hex.py:72-99 | the text always ends with the end-of-file record ":00000001FF" |
| IntelHex.DumpChunk | open-lst/tools/openlst_tools/intel_hex.py:76-96 | one chunk of the writer's loop keeps the emitted lines equal to the formatted records of the chunks so far, and the rest of the dump unchanged |
| IntelHex.RecordText | open-lst/tools/openlst_tools/intel_hex.py:81-95 | the body of the writer's loop produces the formatted data line of the chunk, its checksum summed byte by byte |
| IntelHex.ChecksumCancels | open-lst/tools/openlst_tools/intel_hex.py:82-88 | the checksum the writer computes makes the byte sum of the record 0 modulo 256, which is what the reader demands |
| IntelHex.ParseDataLine | open-lst/tools/openlst_tools/intel_hex.py:41-62 | a line whose fields are hex pairs, with nothing but white space after the checksum and a checksum that cancels, reads as a data record at the high-then-low address |
| IntelHex.RecordLineParses | open-lst/tools/openlst_tools/intel_hex.py:41-62 | every data line the writer emits reads back as the same address and bytes |
| IntelHex.EofRecordParses | open-lst/tools/openlst_tools/intel_hex.py:63-64 | the writer's end-of-file line reads as the end-of-file record |
| IntelHex.FormatRecordParses | open-lst/tools/openlst_tools/intel_hex.py:36-68 | every record the writer formats reads back as itself |
| IntelHex.ParseFormatted | open-lst/tools/openlst_tools/intel_hex.py:34-69 | reading the formatted lines applies the records that were formatted, in order |
| IntelHex.FormattedWellFormed | open-lst/tools/openlst_tools/intel_hex.py:89-97 | formatted records hold no newline, and records ending with the end-of-file record format to lines ending with its line |
| IntelHex.ChunkShape | open-lst/tools/openlst_tools/intel_hex.py:75-78 | a chunk is the start of its slice of the image, and what truncation drops from the slice is erased |
| IntelHex.ReadBackFrom | open-lst/tools/openlst_tools/intel_hex.py:75-97 | applying the records from any chunk boundary on to an image that already agrees below it and is erased above gives the original image |
| IntelHex.DumpThenParse | open-lst/tools/openlst_tools/intel_hex.py:20-99 | reading back what the writer wrote gives the original 32 KiB image, for any line size below 256 and with or without skipping and truncation |
| Provision.Place | open-lst/tools/openlst_tools/save_bootloader.py:86-94 | an area is written exactly when it holds only zero bytes or already holds the content; then the content is in place and nothing outside the area changes, otherwise ValueError leaves the image as it was |
| Provision.PlaceSame | open-lst/tools/openlst_tools/save_bootloader.py:61-64 | content already in its area is accepted and changes nothing |
| Provision.PlaceTwice | open-lst/tools/openlst_tools/save_bootloader.py:61-64 | writing the same content again succeeds and changes nothing |
| Provision.KeySlots | open-lst/tools/openlst_tools/save_bootloader.py:39-43 | a key fits below the reserved word exactly when it is one of the first three |
| Provision.WriteKeysLayout | open-lst/tools/openlst_tools/save_bootloader.py:38-47 | after a successful key insert every key sits in its 16-byte slot and no byte outside the key slots changed |
| Provision.WriteKeysBlank | open-lst/tools/openlst_tools/save_bootloader.py:38-47 | into a blank key area up to three keys are always accepted |
| Provision.WriteKeys | open-lst/tools/openlst_tools/save_bootloader.py:38-47 | the key insert fails only with "too many keys" or a non-empty key slot; "too many keys" means more than three keys, and a run over all keys that succeeds had at most three |
| Provision.TooManyKeysRaise | open-lst/tools/openlst_tools/save_bootloader.py:42-43 | a fourth key is refused whatever the image holds |
| Provision.PackU16 | open-lst/tools/openlst_tools/save_bootloader.py:60 | `struct.pack('<H')` succeeds exactly for values 0 to 0xFFFF and reads back little-endian as the value |
| Provision.InsertWord | open-lst/tools/openlst_tools/save_bootloader.py:50-64 | inserting the hwid or the reserved word raises `struct.error` exactly when the value is not a 16-bit unsigned word |
| Provision.InsertWordLayout | open-lst/tools/openlst_tools/save_bootloader.py:59-64 | a word written into blank space reads back little-endian and nothing else changes |
| Provision.WithHwid | open-lst/tools/openlst_tools/save_bootloader.py:59-64 | `struct.error` is raised exactly for an hwid outside 16 bits; an error leaves the image unchanged; otherwise only the hwid bytes change and they hold the hwid little-endian |
| Provision.WithReserved | open-lst/tools/openlst_tools/save_bootloader.py:50-56 | `struct.error` is raised exactly for a value outside 16 bits; an error leaves the image unchanged; otherwise only the reserved bytes change and they hold the value little-endian |
| Provision.WithApplication | open-lst/tools/openlst_tools/save_bootloader.py:67-73 | the only error is a non-empty application area and it leaves the image unchanged; the default insert makes the application area all 0xFF and changes nothing else |
| Provision.WithSignature | open-lst/tools/openlst_tools/save_bootloader.py:76-83 | the only error is a non-empty signature area and it leaves the image unchanged; the default insert makes the signature area all 0xFF and changes nothing else |
| Provision.WithStorage | open-lst/tools/openlst_tools/save_bootloader.py:86-94 | the only error is a non-empty storage area and it leaves the image unchanged; the default insert makes the storage area all 0xFF and changes nothing else |
| Provision.DefaultsCoverErased | open-lst/tools/openlst_tools/save_bootloader.py:67-94 | the three default inserts together leave the flash from the application's start to the updater erased, and nothing else changed |
| Provision.LockBits | open-lst/tools/openlst_tools/save_bootloader.py:30-35 | the lock-bit argument is the text "08" |
| Provision.StagesLayout | tools/flash.py:30-83 | the hwid, key and erase stages each write their own area, and together they leave the layout the processed image must have |
| Provision.ProcessImage | tools/flash.py:30-83 | `struct.error` is raised exactly for an hwid outside 16 bits; "too many keys" only for more than three keys, and a run that succeeds had at most three |
| Provision.ProcessLayout | tools/flash.py:30-83 | a successful run took at most three keys and a 16-bit hwid, and left the hwid little-endian, each key in its slot and erased flash from the application to the updater, every other byte unchanged |
| Provision.ProcessAcceptsBlank | tools/flash.py:30-83 | an image whose hwid and key area are zero and whose flash from the application on is erased is always accepted, with up to three keys and any 16-bit hwid |
| Provision.ErasedKept | tools/flash.py:56-81 | erased flash is accepted unchanged by the three default inserts |
| Provision.ProcessTwice | tools/flash.py:30-83 | processing an image a second time with the same hwid and keys succeeds and changes nothing |
| Provision.ProcessedIsFixed | tools/flash.py:30-83 | an image already laid out with that hwid and those keys is accepted unchanged |
| Provision.KeysRewrite | tools/flash.py:43-54 | keys already in their slots are accepted again without change |
| Provision.FlashImage.constructor | tools/flash.py:30 | the image holds the parsed bytes |
| Provision.FlashImage.Write | open-lst/tools/openlst_tools/save_bootloader.py:86-94 | the guard-then-write leaves the image and the error that the guarded write specifies |
| Provision.FlashImage.InsertKeys | open-lst/tools/openlst_tools/save_bootloader.py:38-47 | the image and error are those of the key insert function, earlier keys staying written when a later one is refused |
| Provision.FlashImage.InsertHwid | open-lst/tools/openlst_tools/save_bootloader.py:59-64 | the image and error are those of the hwid insert |
| Provision.FlashImage.InsertReserved | open-lst/tools/openlst_tools/save_bootloader.py:50-56 | the image and error are those of the reserved-word insert |
| Provision.FlashImage.InsertApplication | open-lst/tools/openlst_tools/save_bootloader.py:67-73 | the image and error are those of the application insert, with erased flash by default |
| Provision.FlashImage.InsertSignature | open-lst/tools/openlst_tools/save_bootloader.py:76-83 | the image and error are those of the signature insert, with erased flash by default |
| Provision.FlashImage.InsertStorage | open-lst/tools/openlst_tools/save_bootloader.py:86-94 | the image and error are those of the storage insert, with erased flash by default |
| Provision.FlashImage.Process | tools/flash.py:30-83 | the image and error are those of processing: hwid, keys, then the three erased areas, stopping at the first refusal |
| Arguments.HwidType | open-lst/tools/openlst_tools/arguments.py:21-28 | an id is accepted exactly when its text parses as hex and lies strictly between 0x0000 and 0xFFFF, and then it is that value; unparsable text raises ValueError, an out-of-range value ArgumentTypeError |
| Arguments.Hex4Value | open-lst/tools/openlst_tools/arguments.py:23 | four upper-case hex digits are read back by `int(…, 16)` as the value they print |
| Arguments.HwidTypeOfHex4 | open-lst/tools/openlst_tools/arguments.py:21-28 | an id printed as four hex digits is accepted back as itself exactly when it is neither 0x0000 nor 0xFFFF |
| Arguments.HwidTypeHexPrefix | open-lst/tools/openlst_tools/arguments.py:23 | a `0x`-prefixed id is read like its bare digits |
| Arguments.HwidTypeNegative | open-lst/tools/openlst_tools/arguments.py:26-27 | a negative id is refused with ArgumentTypeError |
| Arguments.AesKeyOption | open-lst/tools/openlst_tools/arguments.py:31-41 | a key is accepted exactly when its hex text decodes to `length` bytes, and is then those bytes; anything else, including text not twice `length` characters long, raises ArgumentTypeError |
| Arguments.AesKeyRoundTrip | open-lst/tools/openlst_tools/arguments.py:31-41 | a key written out by hexlify is read back as itself when it has the required length and refused otherwise |

## Left out

- Serial I/O, the host reader thread, the serial port's `__enter__`/`__exit__` and flush are not modelled. The bytes read and the packets that arrive are parameters.
- `get_packet_timeout` is modelled as one `get_packet` over the packets that arrived while it waited. The clock is left out.
- With `retries` set to None the host retries without limit. Here the number of attempts is bounded by the replies supplied.
- Python's `int()` accepts surrounding white space, and in the Intel HEX reader it also accepts a one-digit field at the end of a line. Neither leniency is modelled: tokens are plain literals.
- `int(…, 16)` also accepts a sign, so in open-lst/tools/openlst_tools/intel_hex.py:41-53 a field such as "-1" gives a negative byte count, address or data byte. The model's hex-pair reader refuses such a field.
- `literal_eval` is modelled for decimal and `0x` hexadecimal integer literals with an optional minus sign only.
- `EnumArgument` of the translator is not modelled. No command in the table uses it.
- `splitlines` is modelled for "\n" line ends only.
- `handle_packet` in tools/handler.py can raise UnicodeDecodeError from `.decode()` after the packet is queued. That exception is not modelled, and neither is the print.
- `set_rf_params` in tools/openlst.py computes register values with floating point. The model takes the register fields as given, and leaves out the float values the function returns.
- tools/commands.py is not part of this model. The RF-parameter opcode (0x80) is the one the firmware board handler uses.
- The `main()` entry points are not modelled. One consequence: the flash tool's `main` passes `unhexlify` bytes as the hwid, and the model does not capture that.
- The host's public `send_cmd_once` wrapper is not modelled separately; its body is `SendCmdOnce`.
- The `CommandHandler` constructor's conversion of a string hwid is not modelled. The hwid is an integer.
- Looking up a serial port by its ID is not modelled.
- Uart.Step: in C, the scan for a free buffer reads past the ready flags when every buffer is full. The model stops at the last buffer.
- OpenLstHost.OpenLst.SetTime: the None defaults of `set_time` (tools/openlst.py:228-235) are not modelled; they reach `pack_cint(None, …)`, which raises. Seconds and nanoseconds are integers here.
- Radio.RadioLink.Send: the timer trigger armed before the length check is not modelled.
- Timers.AddTime and Timers.SubtractTime are value functions. The C in-place update through `*t1` is not modelled.
- The dispatcher's command handler is a function parameter. The handlers' effects are modelled in `BootCommands` and `AppCommands`.
- Hardware set-up is not modelled: `board_apply_radio_settings`, register initialisation, the clocks and the watchdog.
- The radio interrupt and DMA are reduced to a packet arriving in the receive buffer.
- The AES peripheral and `crc16` are parameters.
- The telemetry snapshot is not modelled: the ADC readings and the counters it reports are inputs.
- The fixed-length packet mode is not modelled.
- The firmware main loops are not modelled.
- The updater's initialisation, its LED handling and the boot string are not modelled.
- AppCommands: the radio-mode swap around the ranging reply's send is not modelled.

## Findings

| source | as written | input that shows it | evidently intended | confidence | as-written member | corrected member |
|---|---|---|---|---|---|---|
| open-lst/common/radio.c:190-211 | the received length byte is checked only against a minimum | a packet whose length byte is 255: the checksum is read at index 255 of the 255-byte buffer and 252 bytes are copied into a 251-byte command | refuse length bytes that do not fit the buffer | not executed | Radio.ReceiveLength255Overruns | Radio.DecodePacket |
| open-lst/common/radio.c:342-348 | messages of up to 255 - 3 bytes are accepted for sending | a 252-byte message puts the checksum's high byte at index 255 of the 255-byte transmit buffer | accept at most the 251 bytes a command holds | not executed | Radio.SendLength252Overruns | Radio.RadioLink.Send |
| tools/openlst.py:92 | the first sequence number is `randint(0, 65536)`, which includes both ends | 65536 does not fit the unsigned 16-bit big-endian field that `_send` packs with `struct.pack(">H", self.seq)` (tools/openlst.py:161), so `struct.error` is raised | draw from 0 to 65535 | not executed | OpenLstHost.InitialSeqnumOverflows | OpenLstHost.InitialSeqnumPacks |
