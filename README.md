# APrinter core, modelled in Dafny

This project models four parts of the APrinter 3D-printer firmware and proves properties about them.

- **G-code packet encoder** (`encoder.dfy`, module `GcodeEncoder`). This is the host-side tool that turns G-code text into the firmware's binary packet format.
  - `ParseLine` gives the meaning of a line: blank, the `E` escape, or a command with typed parameters. It makes the syntax checks in the order the tool makes them.
  - `Serialize` gives the packet layout.
  - The methods `EncodeLine`, `EncodeParams`, `EncodeParam` and `EncodeFile` follow the tool's loops. Each is proved equal to those functions.
  - `DecodePacket` and `DecodeStream` are an independent reader of the format. The round-trip lemmas show that a packet decodes back to its line and that a file decodes back to its non-blank lines.
- **AVR SPI command queue** (`avr_spi.dfy`, module `AvrSpi`). This is a circular buffer of 2^bits byte-exchange commands, modelled as a class over an `array`.
  - The transfer-complete interrupt is a method. It takes the received byte and returns the next byte to send.
  - The caller's buffers are one byte array, `ram`, and the source's pointers are addresses into it.
  - `Pending()` is the sequence of unfinished commands. Every operation is stated in terms of it.
  - Lemmas about `Run` state what each kind of command sends and stores over a whole run of exchanges.
- **Bed probing state machine** (`bed_probe.dfy`, module `BedProbe`). This is G32.
  - It covers the point cursor, the five moves of each point and the choice made when a move finishes.
  - It also covers the compaction of the measured heights before the least-squares fit. The heights matrix is an `array<Option<real>>`, where `None` stands for NaN.
- **Auxiliary control: heaters and waiting** (`aux_control.dfy`, module `AuxControl`).
  - Each heater keeps its target (`None` for NaN) and its enabled, was-not-unset and thermal-runaway flags.
  - The module also keeps the wait for heaters (M109/M116), with the waited and in-range heater masks as sets of heater indices.
  - It models the cold extrusion switch (M302).

`wrappers.dfy` holds the shared `Option` and `Result` types.

## Model

| member | source | states |
|---|---|---|
| GcodeEncoder.StripComment | tools/aprinter_encode.py:36-38 | the result is the prefix of the line before its first ';' and holds no ';' |
| GcodeEncoder.Strip | tools/aprinter_encode.py:39-41 | `strip()` is empty exactly when the text is all whitespace; otherwise it starts and ends with non-whitespace |
| GcodeEncoder.Split | tools/aprinter_encode.py:42 | `split()` yields non-empty tokens without whitespace, and the first token starts with the text's first character |
| GcodeEncoder.SplitMeaning | tools/aprinter_encode.py:42 | the text is exactly its tokens interleaved with whitespace separators, with a non-empty separator between any two tokens, so the tokens are the maximal non-whitespace runs in order |
| GcodeEncoder.ParseValue | tools/aprinter_encode.py:63-77 | a successfully classified parameter value is in range for its type code |
| GcodeEncoder.ParseParams | tools/aprinter_encode.py:59-77 | one valid parameter per token with the token's letter; the only errors are invalid parameter letter, invalid argument or float overflow |
| GcodeEncoder.ParseCommand | tools/aprinter_encode.py:43-58 | a successfully parsed command is well formed (letter A-Z, number below 2048, at most 14 parameters) |
| GcodeEncoder.ParseLine | tools/aprinter_encode.py:35-77 | a successfully parsed line is well formed |
| GcodeEncoder.ParsesBlank | tools/aprinter_encode.py:36-41 | a line means "nothing" exactly when its stripped, comment-free text is empty |
| GcodeEncoder.BlankLine | tools/aprinter_encode.py:36-41 | a line encodes to no bytes exactly when only whitespace precedes its first ';' |
| GcodeEncoder.EscapeLine | tools/aprinter_encode.py:43-45 | a line encodes to the lone byte 0xE0 exactly when its first token starts with 'E' |
| GcodeEncoder.CommandErrors | tools/aprinter_encode.py:46-58 | each command error (letter, number, too many parameters) happens exactly when the earlier checks pass and its own fails; after them the command fails exactly as its parameter list does |
| GcodeEncoder.CommandChecks | tools/aprinter_encode.py:46-58 | the same checks, in order, stated for the encoding of a whole line |
| GcodeEncoder.ClassifyValue | tools/aprinter_encode.py:63-77 | empty text is void; an integer in [0, 2^32) is U32; one in [2^32, 2^64) is U64; any other text float() accepts (fractions, inf, nan, negative or too-large integers) is the real of its single-precision bits, or FloatOverflow when packing fails; text float() refuses is an invalid argument |
| GcodeEncoder.IntegerLiteralIsFloatLiteral | tools/aprinter_encode.py:68-75 | every text int() accepts is accepted by float(), so an out-of-range integer falls back to a real |
| GcodeEncoder.IntegerPayload | tools/aprinter_encode.py:81-87 | an unsigned payload is the number itself, little-endian, in 4 or 8 bytes |
| GcodeEncoder.LittleEndianRoundTrip | tools/aprinter_encode.py:84-87 | reading back the little-endian bytes of `struct.pack('<I'/'<Q')` gives the number |
| GcodeEncoder.SmallCommandCodes | tools/aprinter_encode.py:119-123 | every type code in the small-command table (G0, G1, G92) lies in 1..3, below the extended code 15 |
| GcodeEncoder.SmallCommandTableInverse | tools/aprinter_encode.py:119-123 | the table is inverted by the decoder's table, in both directions |
| GcodeEncoder.IndexBytesLayout | tools/aprinter_encode.py:91 | index byte k has parameter k's type code in its top three bits and its letter offset in the low five |
| GcodeEncoder.EncodeParam | tools/aprinter_encode.py:60-92 | the parameter loop body returns the index byte and payload of the parsed parameter, or the parse error |
| GcodeEncoder.PacketHeader | tools/aprinter_encode.py:93-99 | the header is the one-byte small form or the three-byte extended form, as Header defines |
| GcodeEncoder.EncodeParams | tools/aprinter_encode.py:59-92 | the loop's index and payload strings are those of the parsed parameters, or the first failing token's error |
| GcodeEncoder.EncodeLine | tools/aprinter_encode.py:35-101 | `encode_line` returns exactly LineEncoding, the serialization of ParseLine, or its error |
| GcodeEncoder.SmallCommandExample | tools/aprinter_encode.py:93-100 | `G1 X10` parses to G1 with X = U32 10 and encodes as 21 77 0A 00 00 00 |
| GcodeEncoder.ExtendedCommandExample | tools/aprinter_encode.py:96-99 | `G2 X1` gets the three-byte header F1 30 02 |
| GcodeEncoder.HeaderRoundTrip | tools/aprinter_encode.py:93-99 | a header is never 0xE0, carries the parameter count in its low nibble, and decodes to its letter, number and length |
| GcodeEncoder.PayloadRoundTrip | tools/aprinter_encode.py:78-90 | each type code's payload width matches the payload, and the payload decodes to the value |
| GcodeEncoder.ParamsRoundTrip | tools/aprinter_encode.py:59-92 | the index bytes and payloads of any valid parameter list decode back to it and use exactly its payload bytes |
| GcodeEncoder.PacketRoundTrip | tools/aprinter_encode.py:93-101 | a packet decodes back to its line, and its length is known without looking past it |
| GcodeEncoder.DecimalStringParses | tools/aprinter_encode.py:114 | the line number in the error message reads back as that number |
| GcodeEncoder.FirstFailure | tools/aprinter_encode.py:109-116 | encoding fails exactly when some line fails; it reports the first failing line's 1-based number and error, and the bytes written are those of the lines before it |
| GcodeEncoder.EncodeLinesKeepsFailure | tools/aprinter_encode.py:109-116 | lines after a failure change nothing |
| GcodeEncoder.EncodeLinesSerializes | tools/aprinter_encode.py:109-116 | a successful run writes the packets of the lines' meanings, in order |
| GcodeEncoder.EncodeFile | tools/aprinter_encode.py:105-117 | `encode_file`'s loop writes exactly FileEncoding: every packet then 0xE0, or the earlier packets and the error |
| GcodeEncoder.FileRoundTrip | tools/aprinter_encode.py:105-117 | the output of a file that encodes without error decodes to its non-blank lines followed by End |
| AvrSpi.ModSub | aprinter/hal/avr/AvrSpi.h:223 | BoundedModuloSubtract is (a - b) mod 2^bits; it is zero exactly when a == b |
| AvrSpi.CommandStep | aprinter/hal/avr/AvrSpi.h:249-285 | one exchange keeps memory's size and keeps a going-on command's addresses in range; a finished command is left as it was |
| AvrSpi.CmdWriteByteSends | aprinter/hal/avr/AvrSpi.h:196-207 | cmdWriteByte sends its byte exactly extra_count + 1 times, then finishes, leaving memory alone |
| AvrSpi.CmdWriteBufferSends | aprinter/hal/avr/AvrSpi.h:181-194 | cmdWriteBuffer sends exactly the `length` bytes of the buffer in order, on `length` exchanges |
| AvrSpi.CmdReadBufferStores | aprinter/hal/avr/AvrSpi.h:151-164 | cmdReadBuffer stores exactly `length` received bytes into the buffer in order, sends send_byte before each, and changes no other memory |
| AvrSpi.ReadUntilDifferentRun | aprinter/hal/avr/AvrSpi.h:166-179 | read-until-different exchanges at most max_extra_length + 1 bytes; it goes on only while it receives the target byte, and `data` holds the last byte received |
| AvrSpi.Spi.constructor | aprinter/hal/avr/AvrSpi.h:115-136 | init: start == end == 0, so nothing is pending |
| AvrSpi.Spi.IsFull | aprinter/hal/avr/AvrSpi.h:334-339 | full exactly when 2^bits - 1 commands are pending |
| AvrSpi.Spi.EndReached | aprinter/hal/avr/AvrSpi.h:226-233 | true exactly when no command is pending |
| AvrSpi.Spi.GetEndIndex | aprinter/hal/avr/AvrSpi.h:209-215 | the end index is a slot, and it counts as reached exactly when the queue is empty |
| AvrSpi.Spi.IndexReached | aprinter/hal/avr/AvrSpi.h:217-224 | an index is reached exactly when it is not a slot just past a pending command |
| AvrSpi.Spi.WriteCommand | aprinter/hal/avr/AvrSpi.h:341-356 | write_command appends the end slot to Pending and advances end; on an idle queue it returns that command's first byte |
| AvrSpi.Spi.Enqueue | aprinter/hal/avr/AvrSpi.h:158-163 | the command is stored in slot `end`, and Pending gains exactly that command; the other slots are unchanged |
| AvrSpi.Spi.CmdReadBuffer | aprinter/hal/avr/AvrSpi.h:151-164 | appends ReadBuffer(send_byte, data, data + length) to Pending |
| AvrSpi.Spi.CmdReadUntilDifferent | aprinter/hal/avr/AvrSpi.h:166-179 | appends ReadUntilDifferent(send_byte, data, target_byte, max_extra_length) to Pending |
| AvrSpi.Spi.CmdWriteBuffer | aprinter/hal/avr/AvrSpi.h:181-194 | appends WriteBuffer(data[0], data + 1, data + length) to Pending |
| AvrSpi.Spi.CmdWriteByte | aprinter/hal/avr/AvrSpi.h:196-207 | appends WriteByte(byte, extra_count) to Pending |
| AvrSpi.Spi.ExchangeCurrent | aprinter/hal/avr/AvrSpi.h:248-285 | the switch of spi_stc_isr: memory, the next byte and the head of Pending are CommandStep of the current command |
| AvrSpi.Spi.Advance | aprinter/hal/avr/AvrSpi.h:286-291 | the finished command leaves Pending and start moves on by one; the next command's first byte is sent if there is one |
| AvrSpi.Spi.Step | aprinter/hal/avr/AvrSpi.h:243-292 | spi_stc_isr: either the current command goes on with its next byte, or it is dropped from Pending and the next command starts |
| BedProbe.NextEnabled | aprinter/printer/modules/BedProbeModule.h:445-451 | the point fold returns the first enabled point at or after `from`, or -1 exactly when there is none |
| BedProbe.AllPointsVisitOrder | aprinter/printer/modules/BedProbeModule.h:480-487 | starting at point 0 and moving with skip_disabled_points visits exactly the enabled points, in increasing order |
| BedProbe.HandlerDecision | aprinter/printer/modules/BedProbeModule.h:588-637 | a move that goes on keeps the cursor in range, and it watches the probe exactly in states 1 and 3 |
| BedProbe.HandlerPriority | aprinter/printer/modules/BedProbeModule.h:599-634 | a move error wins over everything; an unstopped watching move comes next; only a move that goes on may find the probe already triggered |
| BedProbe.EndOfPoint | aprinter/printer/modules/BedProbeModule.h:607-619 | after state 4, single-point mode finishes; otherwise probing goes to the next enabled point in state 0, or finishes when none remains |
| BedProbe.PointCycle | aprinter/printer/modules/BedProbeModule.h:603-637 | with the probe behaving, a point goes through states 0 to 4 in order, watching on the moves of states 1 and 3 |
| BedProbe.ValidHeightsKeeps | aprinter/printer/modules/BedProbeModule.h:241-255 | compaction keeps every measured height, keeps a fully measured list as it is, and leaves none only when no height was measured |
| BedProbe.CompactValidRows | aprinter/printer/modules/BedProbeModule.h:239-255 | the loop moves the measured rows and heights to the front in order, counts them, and leaves the slots after them unchanged |
| BedProbe.CompletionOutcome | aprinter/printer/modules/BedProbeModule.h:257-260 | fewer valid points than columns is TooFewPointsForCorrection; success needs enough points and a good fit |
| BedProbe.BedProbeModule.constructor | aprinter/printer/modules/BedProbeModule.h:348-354 | init: the cursor is -1 (not probing) |
| BedProbe.BedProbeModule.SkipDisabledPoints | aprinter/printer/modules/BedProbeModule.h:480-487 | the cursor moves to the next enabled point, or to -1 |
| BedProbe.BedProbeModule.ProbingStarting | aprinter/printer/modules/BedProbeModule.h:215-221 | every height is reset to NaN |
| BedProbe.BedProbeModule.CheckGCommand | aprinter/printer/modules/BedProbeModule.h:362-398 | non-G32 commands are passed on; an invalid P is InvalidPointNumber; with no enabled point it fails with NoProbePointsEnabled; otherwise probing starts at the right point in state 0 with the heights reset |
| BedProbe.BedProbeModule.PullHandler | aprinter/printer/modules/BedProbeModule.h:541-585 | the move of the current state is sent exactly when none was sent yet; afterwards a move is outstanding and the cursor, point state and error flag are unchanged |
| BedProbe.BedProbeModule.MoveEnd | aprinter/printer/modules/BedProbeModule.h:704-713 | a failed move sets the move error flag; nothing else changes |
| BedProbe.BedProbeModule.ProbingCompleting | aprinter/printer/modules/BedProbeModule.h:229-260 | compacts the heights and reports CompletionOutcome; the hook runs exactly on success |
| BedProbe.BedProbeModule.FinishProbing | aprinter/printer/modules/BedProbeModule.h:663-683 | an error or single-point success ends with the cursor at -1; in all-points mode the completion decides, and the cursor is -2 while the hook runs |
| BedProbe.BedProbeModule.HookCompleted | aprinter/printer/modules/BedProbeModule.h:685-696 | the cursor returns to -1 and the hook's error is reported |
| BedProbe.BedProbeModule.FinishedHandler | aprinter/printer/modules/BedProbeModule.h:588-637 | the decision is HandlerDecision; the state 3 height is recorded in all-points mode; a finished run goes through finish_probing; the move error flag is kept, and a finishing move leaves the point state as it was, or one further on EndstopTriggeredBeforeProbeMove |
| AuxControl.Elapsed | aprinter/printer/modules/AuxControlModule.h:999 | the TimeType difference is below 2^32; for two clock readings it is now - start, or now + 2^32 - start when the clock wrapped in between |
| AuxControl.ElapsedAcrossWrap | aprinter/printer/modules/AuxControlModule.h:999 | a reading taken d ticks (d < 2^32) after start, wrapped to 32 bits, gives an elapsed time of exactly d |
| AuxControl.SafeTarget | aprinter/printer/modules/AuxControlModule.h:449-452 | the S value is kept exactly when it lies in [MinSafeTemp, MaxSafeTemp]; otherwise the target is NaN |
| AuxControl.Heater.constructor | aprinter/printer/modules/AuxControlModule.h:264-278 | init: target NaN and every flag cleared |
| AuxControl.Heater.GetState | aprinter/printer/modules/AuxControlModule.h:321-334 | the error flag is set exactly when a target is set and the heater is disabled |
| AuxControl.Heater.Set | aprinter/printer/modules/AuxControlModule.h:377-386 | the target is set and the heater enabled; nothing else changes, and no error shows |
| AuxControl.Heater.Unset | aprinter/printer/modules/AuxControlModule.h:389-404 | an orderly unset clears the target; a disorderly one keeps it and requests a runaway report when the heater was on; both disable the heater and clear was-not-unset |
| AuxControl.Heater.SetOrUnset | aprinter/printer/modules/AuxControlModule.h:407-414 | a number sets, NaN unsets orderly |
| AuxControl.Heater.HandleSetCommand | aprinter/printer/modules/AuxControlModule.h:447-459 | an S value in the safe range sets the target and enables the heater, keeping every other flag (was-not-unset included, so the controller is not restarted); otherwise the heater is unset orderly |
| AuxControl.Heater.ClearError | aprinter/printer/modules/AuxControlModule.h:360-374 | a heater in error is enabled again with its old target; otherwise nothing changes; afterwards no error shows |
| AuxControl.Heater.ControlTick | aprinter/printer/modules/AuxControlModule.h:516-557 | an unsafe reading unsets disorderly; was-not-unset takes the enabled flag; the runaway report is read and cleared; the controller runs when enabled and restarts after an unset |
| AuxControl.Heater.SetColdExtrude | aprinter/printer/modules/AuxControlModule.h:694-701 | only a heater in the mask takes the new cold extrusion flag |
| AuxControl.WaitCheckMeaning | aprinter/printer/modules/AuxControlModule.h:577-605 | start_wait: HeaterThermalRunaway for a disabled heater with a target, HeaterNotEnabled for a named heater without one, a wait for an enabled heater with a target in the mask |
| AuxControl.WaitOutcomeMeaning | aprinter/printer/modules/AuxControlModule.h:924-937 | the wait starts exactly when every heater passes start_wait and waits for exactly the accepted heaters; otherwise the first failing heater's error is reported |
| AuxControl.WaitAllHeaters | aprinter/printer/modules/AuxControlModule.h:577-605 | with an empty mask only a disabled heater with a target stops the wait, and every heater with a target is waited for |
| AuxControl.WaitEnds | aprinter/printer/modules/AuxControlModule.h:993-1004 | the wait ends exactly when the in-range mask equals the waited mask or the timeout has passed, with WaitTimedOut exactly on the timeout |
| AuxControl.AuxControlModule.constructor | aprinter/printer/modules/AuxControlModule.h:101-107 | init: no heater is waited for |
| AuxControl.AuxControlModule.NamedMask | aprinter/printer/modules/AuxControlModule.h:569-574 | update_wait_mask over all heaters collects exactly the named heaters |
| AuxControl.AuxControlModule.StopWaits | aprinter/printer/modules/AuxControlModule.h:616-623 | every observer stops; nothing else changes |
| AuxControl.AuxControlModule.CompleteWait | aprinter/printer/modules/AuxControlModule.h:978-991 | the command completes with the given error, every observer stops and nothing is waited for |
| AuxControl.AuxControlModule.CheckWaitCompletion | aprinter/printer/modules/AuxControlModule.h:993-1004 | the wait completes exactly as WaitEnds says, and otherwise nothing changes |
| AuxControl.AuxControlModule.ObserverHandler | aprinter/printer/modules/AuxControlModule.h:484-497 | the heater enters or leaves the in-range mask, the wait's start time is kept, then completion is checked as WaitEnds says |
| AuxControl.AuxControlModule.StartWait | aprinter/printer/modules/AuxControlModule.h:577-605 | the error, the waited mask and the observer all follow WaitCheck |
| AuxControl.AuxControlModule.DoWaitHeaters | aprinter/printer/modules/AuxControlModule.h:924-944 | on a failure nothing is waited for and no observer runs; otherwise the waited heaters are WaitOutcome's, the observers run for them, and the command stays active exactly when some heater is waited for |
| AuxControl.AuxControlModule.ControlEvent | aprinter/printer/modules/AuxControlModule.h:512-566 | heater i's flags change as ControlTick says and every other heater and field is unchanged; a wait on heater i ends with HeaterThermalRunaway, stopping every observer, exactly when the heater was observed and is no longer enabled; the in-range mask and the start time are kept |
| AuxControl.AuxControlModule.HandleColdExtrudeCommand | aprinter/printer/modules/AuxControlModule.h:960-976 | without P nothing changes; with P the named heaters, or all when none is named, allow cold extrusion exactly when P > 0 |
| AuxControl.AllHeatersMask | aprinter/printer/modules/AuxControlModule.h:970-972 | AllHeatersMask holds exactly the indices of all heaters |

## Left out

- `float()` and `struct.pack('<f')`: the single-precision narrowing is the parameter `pack`. The model does not compute IEEE-754 values. Only the syntax `float()` accepts is modelled. The overflow error of `struct.pack` is modelled as `FloatOverflow`, which `encode_file` does not prefix with a line number.
- File handling and `main`: opening and writing files, argparse and IOError are not modelled. A file is a sequence of lines, and its output is the bytes written.
- `encode_file` on a failing line: the source writes each line's packet before it reads the next line. So the output already holds the earlier lines' packets, with no terminator, when the error is raised.
- AVR hardware: SPCR, SPSR, SPDR and the pins are left out. SPDR becomes the received byte `rx` and the returned byte to send. Also left out are the fast event of the event loop, `deinit`, `unsetEvent` and the debug object.
- AVR concurrency: interrupt locks, memory barriers and the interleaving of the interrupt with the main context are not modelled. Each operation runs to completion.
- `AvrSpi.Spi.Step` and its parts: the `size_t` counts and lengths are unbounded naturals, and a buffer address is a position in `ram`. Commands only count down from a non-zero value, so no wrap-around is lost.
- Bed probing, motion: the planner (`init_probe_planner`, the move commands, the prestep callback), the probe input and the measured height are parameters (`aborted`, `triggered`, `height`). This includes the Z offsets added to the height.
- Bed probing, corrections: the least-squares fit and the corrections are the parameter `fitOk`, which stands for the BadCorrections check. Also left out are filling the coordinates rows (the constant column and the quadratic factors), applying the corrections, printing them, and the coordinate matrix entries (rows are opaque).
- Bed probing, other: the R retract distance of single-point mode, the height report text, JSON status, M119 and the correction feature's `check_command` are not modelled.
- Heaters: temperatures, the ADC conversion, the controller and the PWM duty cycle are left out. An unsafe ADC reading is the parameter `adcUnsafe`, and what the control tick would do is its `Tick` result. This includes the guard that sets the duty cycle only while was-not-unset holds.
- `AuxControl.Heater.HandleSetCommand`: only the immediate path (M109, or M104 with F) is modelled. The planned path of M104 without F goes through the motion planner and its channel callback, which are not part of this model. The wait that M109 starts is `DoWaitHeaters` for the one heater.
- Commands and replies: command dispatch, heater name matching (the named heaters are a parameter), error and status replies, `maybe_report`, fans, `emergency`, `check_safety` outside the control tick, and the cold-extrusion interlock (it needs the temperature) are not modelled.
- Heater masks are sets of heater indices rather than bit masks. TimeType is 32-bit unsigned, and the wait's elapsed time is computed modulo 2^32.
