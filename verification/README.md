# Verification of the KyogenRV firmware and image generator

A Dafny model of the logic around the KyogenRV processor: the console formatter and its integer
parser, the line editor, the VL53L1X range-sensor driver with its I2C transport and fixed-point
timing arithmetic, the Intel HEX image writer, and the SDRAM address test. Each routine that works
by changing state is a method on arrays, fields or cursors, proved against a specification; the
properties are lemmas about those specifications, over all inputs, runs or interleavings.

| file | contents |
|---|---|
| CTypes.dfy | machine integers, C strings, modular arithmetic |
| Digits.dfy | digit extraction and digit decoding |
| Format.dfy, Rendering.dfy | the directive grammar of the formatter and the text a format stands for |
| Fields.dfy | what each conversion shows, in plain terms |
| Xprintf.dfy | the output routines over a device and a memory destination |
| Xatoi.dfy, RoundTrip.dfy | the integer parser, and printing followed by parsing |
| Xgets.dfy | the line editor |
| Timing.dfy, Dss.dfy | timeout codes, macro periods, the timing budget; SPAD control and range correction |
| I2c.dfy, I2cProtocol.dfy | command words, slave, driver routines; all interleavings of driver and core |
| Registers.dfy, Sensor.dfy | register accesses over the wire; the sensor driver |
| Polling.dfy | the blocking wait and its 16-bit clock; runs of reads |
| IntelHex.dfy | the image writer and a decoder of the standard format |
| SdramTest.dfy | the memory test over an aliasing address decoder |

## Assumptions

- Sizes are those of the ilp32 target: `int` and `long` have 32 bits, `XF_LLI_t` has 64, plain
  `char` is unsigned. Conversions wrap. Where C leaves signed overflow undefined (a precision
  written with more digits than an `int` holds, negating the smallest `int` or `long long`) the
  model wraps as two's complement does. The countdown of a precision is not bounded below, which
  matters only for strings of more than 2^31 characters.
- A C string is a sequence whose only NUL is its last element. An index into it is a read that
  does not pass the terminator, so the verifier's index checks are the cursor-safety proof of the
  formatter and the parser.
- `xatoi` and `xgets` are compiled out in this build (`XF_USE_INPUT` is 0); they are modelled as if
  enabled. An input stream that runs dry reads as the end of the stream. Where no output function is
  installed the echo goes to the destination pointer, and the line buffer is not part of the memory
  that this pointer can reach.
- I2C: TX_READY set means that the command FIFO has room; between two looks at a register the core
  may work off any number of commands, and at least one if a look found the awaited flag clear. The
  wait for the status register after a stop passes after any pause. The slave takes two index bytes,
  increments its address after every data byte and stays silent unless addressed. Shifts and ors of
  disjoint bit fields are written as multiplication and addition.
- The sensor may publish a whole new register file before a call and before each poll of the status
  register; between the poll that finds data and the interrupt clear that asks for the next
  measurement it changes nothing. The clock is an abstract non-decreasing time in milliseconds.
- A division by zero in the timing budget, undefined in C, is modelled as the end of the call.
- The memory test's counter wraps at 2^32 and is compared unsigned. Spans above 0xFFFF_FFFC bytes,
  on which it would wrap before reaching the end and the loops would not end, are excluded.
- Intel HEX: the decoder follows the Intel Hexadecimal Object File Format Specification, Rev. A,
  sections "General Record Format", "Data Record" and "End of File Record", and takes hex digits of
  either case (the writer uses lower case for addresses and checksums). Addresses count words. The
  text is ASCII without the separators 0x1C to 0x1F; a pair may hold a sign or a blank, as Python's
  `int(s, 16)` allows.

## Where code and comments differ

The model follows the code.

- src/sw/xprintf.c:561 is marked as rejecting an invalid character, but its test can never hold:
  the characters from `:` to `?` pass as hex digits 10 to 15 (`Digits.DigitsAccepted`).
- src/sw/xprintf.c:497-500 echoes a line end as CR CR LF, because the line feed is expanded again.
- Zero padding goes in front of the sign (`Rendering.ZeroPadBeforeSign`) and turns a decimal number
  into an octal one for the parser (`RoundTrip.ZeroPaddedDecimal` has the exact condition).
- `%s` pads by the full length of the string even when the precision cuts it
  (`Rendering.StringFieldLength` has the exact condition).
- A timeout of 0 gets the code 0, which stands for 1 (`Timing.CodeOfZero`).
- `VL53L1X_setDistanceMode` returns false on every path; only its VCSEL periods are used here.

## Model

| member | source | states |
|---|---|---|
| Digits.NumeralValue | src/sw/xprintf.c:350-355 | cutting n digits off a value yields digits that evaluate to the value modulo r^n |
| Digits.NumeralMinimal | src/sw/xprintf.c:350-355 | a value below r^n is written with its minimal number of digits, without a leading zero |
| Digits.NumeralExact | src/sw/xprintf.c:350-355 | the 32-byte buffer loses nothing for 64-bit values in radix 8, 10 and 16 and for 32-bit values in radix 2 |
| Digits.DecimalLength | src/sw/xprintf.c:355-356 | a magnitude up to 2^63 has at most 19 decimal digits, so storing the sign stays within the buffer |
| Digits.DigitsAccepted | src/sw/xprintf.c:557-563 | exactly which characters the parser takes as digits of each radix, and with which value |
| Format.DirectivesOfSpelling | src/sw/xprintf.c:246-295 | any list of directives (flag, width, precision, size, conversion, plain text) is recovered from its spelling |
| Format.SpecReads | src/sw/xprintf.c:252-294 | what the text of a directive means: percent sign, flag 0 or -, width digits or star, precision digits or star behind a point, l or ll, conversion; numbers are decimal in 32-bit registers |
| Rendering.RenderConcat | src/sw/xprintf.c:246-360 | the text of a format is the concatenation of its directives' texts, arguments being consumed in order |
| Rendering.PlainFormat | src/sw/xprintf.c:246-251 | a format without a percent sign is put out as it is |
| Rendering.ContractExpand | src/sw/xprintf.c:164-176 | line-end expansion loses nothing: the text can be recovered |
| Rendering.ExpandConcat | src/sw/xprintf.c:164-176 | the expansion of a text is that of its parts, one after the other |
| Rendering.ExpandPlain | src/sw/xprintf.c:164-176 | a text without line feeds is not changed; a line feed goes out as CR LF (`Rendering.ExpandLineFeed`) |
| Rendering.ExpandLineEnds | src/sw/xprintf.c:164-176 | in the output every line feed follows a carriage return |
| Rendering.NumberTextShowsValue | src/sw/xprintf.c:347-359 | the digits shown evaluate to the argument, signed for d, unsigned otherwise, modulo 2^32 for b; sign and leading digit are as expected; at most 32 characters |
| Rendering.NumericFieldLength | src/sw/xprintf.c:356-359 | a number fills exactly the larger of its width and its numeral |
| Rendering.StringFieldLength | src/sw/xprintf.c:309-314 | a string field has the usual length exactly when the precision cuts nothing or the shown part fills the field |
| Fields.NumberShown | src/sw/xprintf.c:254-359 | for every numeric conversion, size, flag, width and argument: the field is the argument's digits in the radix and letters of the conversion, in two's complement with a minus sign for d, unsigned otherwise and modulo 2^32 for b, of a word or with ll of a double word, padded to the width with blanks or zeros on the side that flag and width ask for |
| Fields.StringShown | src/sw/xprintf.c:309-314 | the field is the string up to a precision that is not negative, padded for the length of the whole string |
| Fields.CharacterShown | src/sw/xprintf.c:307-308 | c shows the low byte of its word; a conversion of no known type shows itself; a format that ends within a directive shows nothing for it |
| Fields.ArgumentsTaken | src/sw/xprintf.c:262-346 | which arguments a directive takes: a word for every star, then one of the conversion's type |
| Xprintf.Console.Emit | src/sw/xprintf.c:171-175 | one byte goes to the device, to the memory cursor, or nowhere, and nothing else changes |
| Xprintf.Console.Xfputc | src/sw/xprintf.c:164-176 | one character goes out with its line-end expansion |
| Xprintf.Console.Xfputs | src/sw/xprintf.c:192-200 | the whole string goes out, expanded, and the cursor stops at the terminator |
| Xprintf.Console.Pad | src/sw/xprintf.c:357-359 | the padding loops put out exactly the missing characters |
| Xprintf.Console.PutReversed | src/sw/xprintf.c:358 | the digit buffer goes out back to front |
| Xprintf.Digitize | src/sw/xprintf.c:350-355 | the digit loop stays within the 32-byte buffer and leaves the reversed numeral in it |
| Xprintf.Console.PutNumber | src/sw/xprintf.c:347-359 | sign, numeral and padding go out as the justified field of the value |
| Xprintf.Console.PutShown | src/sw/xprintf.c:312 | the string up to the precision goes out |
| Xprintf.Console.PutString | src/sw/xprintf.c:309-314 | the justified string field goes out |
| Xprintf.Console.Convert | src/sw/xprintf.c:296-359 | one conversion fetches its argument and puts out its text, which the lemmas of Fields describe |
| Xprintf.ReadFlag | src/sw/xprintf.c:254-261 | reads the flag and advances the cursor past it |
| Xprintf.ReadWidth | src/sw/xprintf.c:262-273 | reads the minimum width from the format or an argument; a negative argument justifies left |
| Xprintf.ReadPrecision | src/sw/xprintf.c:274-286 | reads the precision from the format or an argument |
| Xprintf.ReadUnsigned | src/sw/xprintf.c:269-272 | the width loop computes the decimal number modulo 2^32 and stops at the first other character |
| Xprintf.ReadSigned | src/sw/xprintf.c:281-284 | the same for the signed precision |
| Xprintf.ReadSize | src/sw/xprintf.c:287-294 | reads the size prefix |
| Xprintf.ReadDirective | src/sw/xprintf.c:252-294 | reads one directive; the cursor never passes the terminator |
| Xprintf.Console.Xvfprintf | src/sw/xprintf.c:229-361 | for every format and matching arguments the output is the expanded rendering of the format, directive by directive as `Format.SpecReads` and the lemmas of Fields describe |
| Xprintf.Console.Xsprintf | src/sw/xprintf.c:393-408 | memory receives the text and a terminator at the destination and is untouched elsewhere; the destination is disabled again |
| Xatoi.Prefix | src/sw/xprintf.c:536-553 | selects the radix, or finds the token no number |
| Xatoi.Digits32 | src/sw/xprintf.c:555-566 | accepts exactly the tokens of valid digits and computes their value modulo 2^32 |
| Xatoi.Xatoi | src/sw/xprintf.c:518-571 | succeeds exactly on tokens that denote a number, returns it, and leaves the cursor behind the token; on failure the result is 0 and the cursor stays within the token |
| Xatoi.TokenMeaning | src/sw/xprintf.c:529-570 | for a sign, a prefix 0x, 0b or 0 or none, and any characters behind it: when the token denotes a number, and which, in a signed 32-bit register |
| Xatoi.TokenForms | src/sw/xprintf.c:529-570 | every text has such parts |
| RoundTrip.ListRoundTrip | src/sw/xprintf.c:505-571 | every list of 32-bit values, each printed with %*ld and any number of spaces behind it, is read back in order by as many calls exactly when a space stands between any two numbers (one more call then fails); otherwise one of the calls fails |
| RoundTrip.ListFormat | src/sw/xprintf.c:254-294 | the format printed for the list is %*ld and its spaces for every item |
| RoundTrip.CallsUseWords | src/sw/xprintf.c:518-571 | in any string every successful call uses up a word of its own |
| RoundTrip.PrefixedRoundTrip | src/sw/xprintf.c:536-571 | 0x%lx, 0x%lX, 0%lo and 0b%lb, plain or zero padded, are read back to the printed bit pattern |
| RoundTrip.PrefixedFormatRoundTrip | src/sw/xprintf.c:505-571 | the same through a format string, for which one word is the matching argument list, and memory |
| RoundTrip.ZeroPaddedDecimal | src/sw/xprintf.c:536-571 | a zero-padded decimal is read back exactly when no zero was put in or the value is 0 to 7 |
| Xgets.Terminal.EditBuffer | src/sw/xprintf.c:487-495 | one character edits the buffer and is echoed as the fold says |
| Xgets.Terminal.EchoLineEnd | src/sw/xprintf.c:497-500 | the closing echo is CR CR LF |
| Xgets.Terminal.Xgets | src/sw/xprintf.c:473-503 | the buffer is the bounded edit fold of the input up to its end, terminated; the echo, to the device, to memory or nowhere, the input left over and the result are as specified |
| Xgets.KeyExactly | src/sw/xprintf.c:487-495 | what each key does to the line and to the echo |
| Xgets.KeysInTurn | src/sw/xprintf.c:482-495 | keys act one after the other |
| Xgets.ReturnExactly | src/sw/xprintf.c:482-484 | the line ends at the first return or end of stream, the rest of the stream is left, and a line has arrived exactly at a return |
| Xgets.LineBound | src/sw/xprintf.c:492-495 | the line never outgrows the buffer and holds visible characters only |
| Xgets.EchoReplays | src/sw/xprintf.c:487-495 | typing the echoed characters again gives the same line and the same echo |
| Xgets.PlainTyping | src/sw/xprintf.c:492-495 | without backspaces the line is the text typed, cut at the buffer's size |
| Xgets.RubOut | src/sw/xprintf.c:487-495 | a backspace undoes the character before it exactly when that character had room |
| Timing.Encode | src/sw/VL53L1X.c:349-366 | the encoder's loop computes the code that the following lemmas are about |
| Timing.EncodeBest | src/sw/VL53L1X.c:349-366 | the code decodes to at most the timeout, no code comes closer from below, the loss is under one part in 128, MSByte is at most 24 and LSByte normalised |
| Timing.EncodeMonotone | src/sw/VL53L1X.c:349-366 | longer timeouts never get a smaller code |
| Timing.EncodeStable | src/sw/VL53L1X.c:349-366 | encoding a decoded code gives the code again, for every 32-bit timeout |
| Timing.PllProductFits | src/sw/VL53L1X.c:374-380 | the first product fits 32 bits exactly for oscillator frequencies from 576 on |
| Timing.MacroPeriodExact | src/sw/VL53L1X.c:371-386 | with the distance modes' periods no step wraps and the macro period is positive and bounded |
| Timing.MacroPeriodAccurate | src/sw/VL53L1X.c:371-386 | the nested truncating divisions lose less than 20 units in the last place of the exact macro period |
| Timing.ZeroPeriodExactly | src/sw/VL53L1X.c:371-386 | for every frequency and every period register, wrapping products included, the exact condition under which the macro period is zero |
| Timing.MclksRounded | src/sw/VL53L1X.c:343-345 | the conversion to macro periods is exact to half a period |
| Timing.AcceptedExactly | src/sw/VL53L1X.c:285-293 | the budgets accepted are those above 4528 up to 1104528, and the time per range is half of what is above 4528 |
| Timing.FixedTimings | src/sw/VL53L1X.c:302-329 | with a period of the modes the 1000 us of phase calibration are 37 macro periods or fewer, so the limit of 0xFF never applies, and the 1 us of the MM timings round to 0; neither sum wraps |
| Timing.AcceptedFits | src/sw/VL53L1X.c:288-293 | the guard on the budget keeps the shift within 32 bits, whatever the macro period |
| Timing.BudgetEndToEnd | src/sw/VL53L1X.c:285-338 | for every accepted budget, frequency from 576 on and mode: both products, all shifted times and their sums fit 32 bits, no divisor is zero, the rounding of (budget_us - 4528) / 2 and its encoding errors are bounded, phase calibration is at most 37 and rounded, the MM timing is 0 |
| Timing.RangeCodeMonotone | src/sw/VL53L1X.c:319-333 | for every period register and frequency with a divisor, a larger accepted budget never lowers the range timeout code |
| Dss.FallbackExactly | src/sw/VL53L1X.c:563-578 | the fallback is taken exactly when the SPAD count or the summed rate is 0 |
| Dss.TargetMet | src/sw/VL53L1X.c:563-587 | the register value reaches the target rate or its limit, with a bounded overshoot; the summed rate and both shifted values fit 32 bits |
| Dss.ControlExactly | src/sw/VL53L1X.c:563-599 | the value written in terms of the two divisions' bounds, and 0x8000 without SPADs or light |
| Dss.ControlMonotone | src/sw/VL53L1X.c:563-587 | the value does not grow with the rate and does not shrink with the SPADs in use |
| Dss.CorrectionExact | src/sw/VL53L1X.c:484-490 | the range correction is 2011/2048 to the nearest, is not truncated, and keeps the order |
| I2c.I2cCore.AwaitRoom | src/sw/qsys_i2c.c:55-56 | the TX_READY poll ends with room in the FIFO |
| I2c.I2cCore.AwaitByte | src/sw/qsys_i2c.c:108-109 | the RX_READY poll ends with the one byte that is owed |
| I2c.I2cCore.StartTransmit | src/sw/qsys_i2c.c:48-67 | writes one start word with address and direction; the FIFO keeps its depth |
| I2c.I2cCore.Write | src/sw/qsys_i2c.c:74-93 | writes one data word, with the stop bit if asked |
| I2c.I2cCore.Read | src/sw/qsys_i2c.c:95-119 | returns the byte its own command asked for, whatever the pace of the core, and leaves none outstanding |
| I2cProtocol.NextKeeps | src/sw/qsys_i2c.c:48-119 | every step of driver or core keeps the refinement of the sequential execution |
| I2cProtocol.EveryInterleaving | src/sw/qsys_i2c.c:48-119 | in every interleaving the FIFO stays within 4, at most one byte is outstanding, bytes arrive in order, and the end state is the sequential one |
| I2cProtocol.NoDeadlock | src/sw/qsys_i2c.c:48-119 | until all calls are done, driver or core can move |
| I2cProtocol.RunsAreShort | src/sw/qsys_i2c.c:48-119 | only successful steps count: at most 10 for each call and 6 more; a poll that finds nothing changes nothing and is not a step |
| Registers.WriteMeaning | src/sw/VL53L1X.c:51-78 | the words of a register write store its bytes at consecutive addresses and end the transaction |
| Registers.ReadMeaning | src/sw/VL53L1X.c:80-124 | the words of a register read return the bytes at consecutive addresses and change no register |
| Registers.AccessFramed | src/sw/VL53L1X.c:51-124 | every transaction has STA on its first word only and STO on its last only |
| Registers.WriteLegal | src/sw/VL53L1X.c:51-78 | a write is a legal call sequence for the protocol, whatever came before and follows |
| Registers.ReadLegal | src/sw/VL53L1X.c:80-124 | the same for a read |
| Registers.WireRoundTrip | src/sw/VL53L1X.c:51-124 | a read after a write returns what was written, and all other registers are as before |
| Registers.StoredBytes | src/sw/VL53L1X.c:59-78 | the bytes of a 16-bit or 32-bit value go to consecutive registers, most significant first, past register 0xFFFF to 0 |
| Registers.FetchedValues | src/sw/VL53L1X.c:95-124 | which registers make up a 16-bit or 32-bit value read |
| Registers.WriteOnWire | src/sw/VL53L1X.c:51-78 | the words of a write in numbers: 0x252, the register's two bytes, the data bytes, the last with bit 8 |
| Registers.ReadOnWire | src/sw/VL53L1X.c:80-124 | the words of a read in numbers: 0x252, the register with bit 8 in its last word, 0x253, and 0 for every byte but 0x100 for the last |
| Registers.BurstIsSingles | src/sw/VL53L1X.c:429-460 | a long read returns what reads of one and two registers return |
| Sensor.Vl53l1x.SendIndex | src/sw/VL53L1X.c:52-54 | addresses the sensor and sends the register index |
| Sensor.Vl53l1x.WriteReg | src/sw/VL53L1X.c:51-57 | writes one register with the words of a register write |
| Sensor.Vl53l1x.WriteReg16Bit | src/sw/VL53L1X.c:59-67 | writes a 16-bit value big-endian |
| Sensor.Vl53l1x.WriteReg32Bit | src/sw/VL53L1X.c:70-78 | writes a 32-bit value big-endian |
| Sensor.Vl53l1x.ReadReg | src/sw/VL53L1X.c:80-92 | returns the register and changes none |
| Sensor.Vl53l1x.ReadReg16Bit | src/sw/VL53L1X.c:95-106 | returns the big-endian 16-bit value |
| Sensor.Vl53l1x.ReadReg32Bit | src/sw/VL53L1X.c:109-124 | returns the big-endian 32-bit value |
| Sensor.Vl53l1x.ReadResults | src/sw/VL53L1X.c:429-460 | the burst fills every field with what simple register reads give, in one transaction pair of exactly 17 received bytes |
| Sensor.ResultsAt | src/sw/VL53L1X.c:436-459 | the register or registers, in numbers, that each result field is read from |
| Sensor.Vl53l1x.SetMeasurementTimingBudget | src/sw/VL53L1X.c:285-338 | for every budget, frequency and register contents: refuses exactly the unguarded budgets and then touches nothing, ends in a division by zero exactly when a divisor is 0 and after the writes made so far, else leaves the timing registers as specified |
| Sensor.BudgetDivides | src/sw/VL53L1X.c:285-333 | for every budget, frequency and all register contents: refused exactly outside the bounds, and the exact frequencies and period registers with which an accepted budget ends in a division by zero |
| Sensor.BudgetAt | src/sw/VL53L1X.c:295-333 | the value of every register after an accepted budget, also when only timing A has a period |
| Sensor.BudgetOnTheSensor | src/sw/VL53L1X.c:285-338 | in every mode an accepted budget completes; registers 0x5E/0x5F and 0x61/0x62 hold the code of (budget_us - 4528) / 2 microseconds in macro periods of their own, rounded and then cut to eight significant bits, 0x5A to 0x5D hold 0, 0x4B holds 1000 us rounded and uncut, and no other register changes |
| Sensor.BudgetMonotone | src/sw/VL53L1X.c:285-338 | of two budgets that complete on the same sensor, in whatever state, the larger never leaves a smaller value in either range timeout register |
| Sensor.Vl53l1x.UpdateDSS | src/sw/VL53L1X.c:560-599 | writes the SPAD register exactly once, with the control law's value |
| Sensor.Vl53l1x.SetupManualCalibration | src/sw/VL53L1X.c:462-477 | saves and overrides the calibration registers as specified |
| Sensor.CalibrationSettles | src/sw/VL53L1X.c:462-477 | setting calibration up again would change no register |
| Sensor.Vl53l1x.DataReady | src/sw/VL53L1X.c:42-44 | data is ready exactly when bit 0 of the status register is clear |
| Sensor.Vl53l1x.AwaitData | src/sw/VL53L1X.c:401-409 | the waiting loop ends as the polling specification says, with the registers as the sensor published them by the last poll, and sets the timeout flag only when it gives up |
| Sensor.Vl53l1x.Process | src/sw/VL53L1X.c:411-425 | results, calibration in the first round, SPAD control, corrected range and interrupt clear: fields, registers and the words sent, in their order |
| Sensor.ProcessedAt | src/sw/VL53L1X.c:411-425 | every register after a processed measurement: 0x86 holds 1, 0x54/0x55 the control value, in the first round 0x0B, 0x08, 0x4D and 0x47 the calibration, all others are as before |
| Sensor.Vl53l1x.Read | src/sw/VL53L1X.c:398-427 | a read times out, waits or completes as polled; results and range are those of the registers the sensor published by the ready poll; registers, flags and the number of calibrations follow; a completed read leaves 1 in 0x86, and the words that clear the interrupt are the last it sends |
| Sensor.Vl53l1x.ReadRun | src/sw/VL53L1X.c:398-427 | over any run of reads the driver's flag is the fold of the calls, the number of calibrations grows at exactly the call that `Polling.Calibrates` names, and by one in all if the flag was set in the run |
| Polling.TimeoutExact | src/sw/VL53L1X.c:19-31 | with looks at the clock less than 65536 - io_timeout apart, the wait gives up exactly at the first poll that is not ready and truly late |
| Polling.CallExactly | src/sw/VL53L1X.c:42-44 | in numbers: when a call completes, gives up or still waits, and with which registers, after k passes that found bit 0 of register 0x31 set and the time not expired |
| Polling.WaitExactly | src/sw/VL53L1X.c:19-31 | for looks at the clock any time apart: the wait does what is meant exactly when, at the poll where it should give up, the elapsed time modulo 65536 still exceeds io_timeout |
| Polling.GapBoundSharp | src/sw/VL53L1X.c:19-31 | for every timeout there are polls, their looks at the clock at most 65536 - io_timeout apart, with which the wait misses its timeout |
| Polling.PaceExactly | src/sw/VL53L1X.c:19-31 | the wait does what is meant on all polls at most gap apart exactly when gap is below 65536 - io_timeout |
| Polling.NoTimeout | src/sw/VL53L1X.c:29-31 | a timeout of 0 never gives up |
| Polling.CalibratesFirst | src/sw/VL53L1X.c:413-417 | a read calibrates exactly when it is the first to complete |
| Polling.CalibratesOnce | src/sw/VL53L1X.c:413-417 | over any run of reads calibration happens exactly once if any read completes, else never; `Sensor.Vl53l1x.ReadRun` ties this to the driver |
| IntelHex.ConvIsBytes | mk_intel_hex.py:8-12 | splitting in pairs and converting gives the bytes the text spells |
| IntelHex.PieceExactly | mk_intel_hex.py:11-12 | which pairs of characters are numbers, and which ones |
| IntelHex.StripExactly | mk_intel_hex.py:46 | stripping a text that is not blank at its ends of any blanks around it gives that text |
| IntelHex.StripParts | mk_intel_hex.py:46 | every line is its stripped text between blanks |
| IntelHex.WordLineExactly | mk_intel_hex.py:46 | the lines that hold a word are eight hex digits between blanks |
| IntelHex.WriteImage | mk_intel_hex.py:44-56 | the loop writes the records of the lines at counted-up addresses and the end record, or fails at a pair that is no number |
| IntelHex.RecordDecodes | mk_intel_hex.py:46-52 | the record of a word decodes to its address and bytes, and its bytes sum to 0 modulo 256 |
| IntelHex.RecordText | mk_intel_hex.py:46-52 | the record of a word character by character, with lower-case digits for address and checksum |
| IntelHex.OtherLength | mk_intel_hex.py:46-52 | no record whose address and data do not make twelve hex digits decodes |
| IntelHex.EofDecodes | mk_intel_hex.py:31 | the end-of-file record is the standard's |
| IntelHex.HexRoundTrip | mk_intel_hex.py:44-56 | for all lines: the file decodes exactly when every line can be read at its address; while the addresses fit four digits that means eight digits a line, and the data is the lines' bytes at consecutive addresses |
| IntelHex.RecordReadable | mk_intel_hex.py:46-52 | the record of any address and data decodes exactly when together they make twelve hex digits, with 00 at the type and a sum that agrees with the writer's |
| IntelHex.ReadableNear | mk_intel_hex.py:46-52 | with a four-digit address exactly the lines of eight hex digits can be read, and such a line at no other address |
| IntelHex.ReadableFar | mk_intel_hex.py:46-52 | with five address digits: exactly for seven-digit lines at addresses ending in 0 whose digits meet the checksum equation |
| IntelHex.WrittenExactly | mk_intel_hex.py:8-12 | the writer fails exactly at a line with a pair that is no number, never at an address |
| IntelHex.HexRecovers | mk_intel_hex.py:44-56 | for all lines, whatever they hold and however many: the file is written and decodes to data at the lines' own addresses exactly when every line holds eight digits and every address fits four, and then the data is the lines' bytes |
| IntelHex.RawRoundTrip | mk_intel_hex.py:44-56 | up to 65536 lines of eight hex digits between any blanks are written, and the file with its end record decodes to those digits' bytes at the addresses 0, 1, 2, ... |
| SdramTest.WritePass | src/sw/main.c:22-24 | afterwards every cell holds the last tested offset that selects it |
| SdramTest.ReadPass | src/sw/main.c:27-34 | the read pass fails at the smallest offset that is not the last writer of its cell |
| SdramTest.RunTest | src/sw/main.c:15-35 | the test passes exactly when no two addresses (base + k) modulo 2^32, k a multiple of 4 below the length, select the same cell, and otherwise fails at the smallest offset whose cell a later one selects as well |
| SdramTest.MirroredPart | src/sw/main.c:15-35 | a part of n words that repeats through the address range makes the tested addresses share cells exactly when it is too small, and then already the first cell |

## Left out

- Floating point (`ftoa`, `ilog10`, `i10x`, `xatof`, `countRateFixedToFloat`): rounding of C doubles is not modelled, and the formatter's support is compiled out.
- `put_dump`: compiled out, and only calls the formatter.
- `VL53L1X_init`, `VL53L1X_startContinuous` and the constant writes of `VL53L1X_setDistanceMode`: lists of register writes without a property beyond the constants.
- The status `switch` of `VL53L1X_getRangingData`: a lookup table.
- UART output, `wait_ms` and the two-half time read: input and output, and a clock read that is not atomic.
- `i2c_init` and `i2c_disable_isr`: set-up writes to controller registers that the protocol does not depend on.
- The real controller's timing: the status-register waits pass after an arbitrary pause, and the core is assumed to make progress.
- Electrical and bus-level behaviour of I2C (clock stretching, arbitration, missing acknowledge): not visible in the driver.
- Sensor.Vl53l1x.Read: the wait is observed over a finite list of polls, so a wait that never ends is one that outlasts every list.
- File and directory handling of the image generator, the processor, FPGA files and build scripts.
