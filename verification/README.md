# STTS22H temperature-sensor driver, modelled in Dafny

This project models the driver for the STTS22H digital temperature sensor
(`src/stts22h.rs`) and proves what it does on the I2C bus. The model covers:

- the register map (`Reg`), the CTRL bits (`Ctrl`) and the STATUS bits (`Status`);
- the three STATUS predicates and the `defmt::Format` flag listing;
- the four bus operations:
  - `init` writes 0x08 (IF_ADD_INC alone) to CTRL, clearing every other CTRL bit;
  - `id` reads WHOAMI;
  - `status` reads STATUS;
  - `temperature` reads CTRL, writes it back with ONE_SHOT set, polls STATUS
    while BUSY, and reads the two sample bytes as a little-endian `i16`.

Files:

- `bytes.dfy` (module `Bytes`): `u8` (a `bv8`, so `&`, `|` and `>>` are the
  target's) and `i16`, and `i16::from_le_bytes` with its inverse
  `to_le_bytes`.
- `i2c.dfy` (module `I2c`): the bus handle the driver owns, as a class `Bus`.
  - It has a `script` of device replies and a `trace` of issued transactions.
  - Each `write` or `write_read` appends itself to the trace and consumes
    one reply. An answer fills the read buffer in place; a failure is
    returned as an error.
  - A script that has run out answers `NoResponse`, which stands for a bus
    timeout.
  - `WriteRun` and `WriteReadRun` give the same behaviour as pure functions.
- `defmt.dfy` (module `Defmt`): the `Formatter` that `defmt::write!` appends
  text to, and `Join`.
- `stts22h.dfy` (module `Stts22h`): the driver itself.
  - Each operation is a method of the class `STTS22H`, written as the source
    writes it: `:-` for `?`, arrays for the `[0; n]` buffers, and a `while`
    loop for the polling.
  - `temperature` (one function in the source) is split into three members:
    the method `Trigger` (the CTRL read and write-back), the method
    `AwaitSample` (the polling loop and the sample read), and the method
    `Temperature`, which calls the two. The lemma `Finish` proves that
    together they perform `TemperatureRun`.
  - Each method is proved to perform a reference run: `InitRun`, `IdRun`,
    `StatusRun`, and `TemperatureRun` (built from `TriggerRun` and `Await`).
  - "Performs" means the trace grew by exactly the run's transactions, the
    script lost exactly their replies, and the method returned the run's
    result.
- `properties.dfy` (module `Properties`): what the runs guarantee, for every
  script of replies.

## Model

| member | source | states |
|---|---|---|
| Bytes.FromLeBytes | src/stts22h.rs:142 | the decoded `i16` is negative exactly when bit 7 of the high byte is set |
| Bytes.FromLeBytesCongruent | src/stts22h.rs:142 | the decoded value is congruent to `lo + 256*hi` modulo 2^16, i.e. it is the two's-complement reading |
| Bytes.DecodeEncode | src/stts22h.rs:142 | decoding the little-endian bytes of any `i16` gives it back |
| Bytes.EncodeDecode | src/stts22h.rs:142 | encoding the decoding of any two bytes gives the bytes back, so the decoding is a bijection onto `i16` |
| Stts22h.Reg.Offset | src/stts22h.rs:9-17 | every register lies at a one-byte offset between 0x01 and 0x07 |
| Properties.RegOffsets | src/stts22h.rs:9-17 | each register's offset is the one in the register map (WHOAMI 0x01 to TEMP_H_OUT 0x07), and distinct registers have distinct offsets |
| I2c.WriteRun | src/stts22h.rs:109-111 | a write is one `Write` event, consumes one reply, and succeeds exactly when that reply is an answer; otherwise it returns the reply's error |
| I2c.WriteReadRun | src/stts22h.rs:116-118 | a write-read is one `WriteRead` event, consumes one reply, and on an answer yields the bytes received into a zeroed buffer; otherwise it yields the reply's error |
| I2c.Bus.constructor | src/main.rs:71 | a fresh bus handle (`I2cDevice::new`) has an empty trace; the reply script it takes stands for the device's answers |
| I2c.Bus.Write | src/stts22h.rs:109-111 | appends the write to the trace, consumes one reply, and returns that reply's error, if any |
| I2c.Bus.WriteRead | src/stts22h.rs:116-118 | appends the write-read to the trace and consumes one reply; on an answer, overwrites the leading bytes of the buffer in place and leaves the rest as they were |
| Defmt.Formatter.Write | src/stts22h.rs:72 | `defmt::write!` appends its text to what was written before |
| Stts22h.Status.UnderThl | src/stts22h.rs:57-59 | `under_thl` holds exactly when bit 2 of the STATUS byte is set |
| Stts22h.Status.OverThh | src/stts22h.rs:61-63 | `over_thh` holds exactly when bit 1 of the STATUS byte is set |
| Stts22h.Status.Busy | src/stts22h.rs:65-67 | `busy` holds exactly when bit 0 of the STATUS byte is set |
| Stts22h.Flags | src/stts22h.rs:74-92 | the names of the set flags, at most three; none exactly when no flag is set (their order is stated by RenderingText) |
| Stts22h.Rendering | src/stts22h.rs:69-96 | the text `Format` writes; it starts with "Status(" and ends with ")" (RenderingText and RenderingEmpty state the whole text) |
| Stts22h.Format | src/stts22h.rs:69-96 | the step-by-step writes, with the `prev` flag, append exactly "Status(", the set flags joined by a space, a vertical bar and a space, then ")" |
| Stts22h.STTS22H.constructor | src/stts22h.rs:104-106 | the driver owns the given bus handle |
| Stts22h.InitRun | src/stts22h.rs:103-112 | `init` issues exactly one write, to 0x38, of `[0x04, 0x08]`, consumes one reply, and fails exactly when that reply failed, with its error |
| Stts22h.IdRun | src/stts22h.rs:114-121 | `id` issues exactly one write-read, to 0x38, of `[0x01]` with one byte read; it returns that byte, or fails exactly when the read does, with its error |
| Stts22h.StatusRun | src/stts22h.rs:147-154 | `status` issues exactly one write-read, to 0x38, of `[0x05]` with one byte read; it returns that byte as `Status`, or fails exactly when the read does, with its error |
| Stts22h.TriggerRun | src/stts22h.rs:124-131 | the CTRL read and write-back of `temperature`, stopping at the first failed transaction (its events are stated by TriggerFails, TemperatureTriggers and TriggerScripted, the replies it takes by TriggerRest) |
| Stts22h.Await | src/stts22h.rs:133-141 | the polling loop and the sample read, one transaction per reply, ending at the first failure, at the sample, or (in the model) when the replies run out (stated by AwaitConsumes, AwaitPolls, AwaitLast, AwaitResult and AwaitScripted) |
| Stts22h.TemperatureRun | src/stts22h.rs:123-145 | `temperature`: the trigger and then, unless it failed, the wait (stated by TemperatureConsumes, TriggerFails, TemperatureTriggers, TemperaturePolls, TemperatureSample and TemperatureScripted) |
| Stts22h.STTS22H.Init | src/stts22h.rs:108-112 | performs `InitRun`: one write of `[CTRL, IF_ADD_INC]` |
| Stts22h.STTS22H.Id | src/stts22h.rs:114-121 | performs `IdRun`: one WHOAMI write-read into a one-byte buffer; returns its byte, or the bus error |
| Stts22h.STTS22H.ReadStatus | src/stts22h.rs:147-154 | performs `StatusRun`: one STATUS write-read; returns the byte wrapped as `Status`, or the bus error |
| Stts22h.STTS22H.Trigger | src/stts22h.rs:124-131 | performs `TriggerRun`: reads CTRL, then writes it back with ONE_SHOT ORed in; stops at the first error |
| Stts22h.STTS22H.AwaitSample | src/stts22h.rs:133-141 | performs `Await` from the first poll: STATUS reads while BUSY, then the two-byte sample read, decoded |
| Stts22h.STTS22H.Temperature | src/stts22h.rs:123-145 | performs `TemperatureRun`: the trigger and then, unless it failed, the wait |
| Stts22h.Finish | src/stts22h.rs:123-145 | a successful trigger followed by the wait is the whole of `temperature` |
| Properties.IdReturnsByte | src/stts22h.rs:114-121 | `id` returns whatever byte the device answers, unchanged |
| Properties.StatusFlagsIgnoreOtherBits | src/stts22h.rs:45-67 | flipping any bits other than its own leaves each STATUS predicate unchanged |
| Properties.OneShotWriteBack | src/stts22h.rs:129-131 | the CTRL byte written back has bit 0 set and every other bit as it was read |
| Properties.RenderingText | src/stts22h.rs:69-96 | the text is "Status(", then the set flags in the order UNDER_THL, OVER_THH, BUSY with a space, a vertical bar and a space between neighbours, then ")" |
| Properties.RenderingEmpty | src/stts22h.rs:69-96 | the text is "Status()" exactly when no flag is set |
| Properties.AwaitConsumes | src/stts22h.rs:133-140 | the wait issues at least one transaction and consumes one reply for each; every reply before the last was an answer; it fails exactly when the last reply failed, with that reply's error |
| Properties.AwaitPolls | src/stts22h.rs:133-135 | every transaction of the wait but the last is a STATUS read, and all STATUS answers but the last were busy; a wait that ends on a STATUS read has failed |
| Properties.AwaitLast | src/stts22h.rs:133-140 | the wait ends with a STATUS read or with the sample read, and the sample is read only after a STATUS answer that was not busy |
| Properties.AwaitResult | src/stts22h.rs:137-141 | a successful wait ended with the sample read, and its value is the decoding of the two bytes received |
| Properties.TriggerRest | src/stts22h.rs:124-131 | a successful trigger consumed exactly two replies |
| Properties.TriggerFails | src/stts22h.rs:124-131 | a failed trigger makes `temperature` fail; it ends after the one-byte CTRL read at 0x38, or after that read and the write `[0x04, b]` (`b` the byte read with ONE_SHOT ORed in); the last of these got the failed reply, its error is returned, and nothing is issued after it |
| Properties.TemperatureConsumes | src/stts22h.rs:123-145 | `temperature` takes one reply per transaction; every reply before the last was an answer; it fails exactly when the last reply failed, returns that error unchanged, and issues nothing after it |
| Properties.TemperatureTriggers | src/stts22h.rs:124-131 | a successful `temperature` had a successful trigger; any `temperature` whose trigger succeeded issued at least three transactions and began with a one-byte read of CTRL at 0x38, then the write `[0x04, b]`, where `b` is the byte read with bit 0 (ONE_SHOT) ORed in |
| Properties.TemperatureSplits | src/stts22h.rs:123-145 | after a successful trigger, `temperature` is the trigger's two transactions followed by the wait on the replies after them |
| Properties.TemperatureLast | src/stts22h.rs:123-145 | after a successful trigger, `temperature` issued two transactions more than the wait, and its last transaction, the reply to it and its result are the wait's |
| Properties.TemperaturePolls | src/stts22h.rs:133-135 | a successful `temperature` then issued one or more STATUS reads; every answer but the last was busy, and the last was not |
| Properties.TemperatureSample | src/stts22h.rs:137-142 | a successful `temperature` ended with one two-byte read from 0x06, and returns `i16::from_le_bytes` of the bytes received |
| Properties.AwaitScripted | src/stts22h.rs:133-141 | against busy STATUS answers, an idle one and the bytes of any sample, the wait issues one STATUS read per answer and the sample read, and returns the sample |
| Properties.TriggerScripted | src/stts22h.rs:124-131 | against a one-byte CTRL answer `c` and any answer to the write, the trigger reads CTRL, writes `[0x04, c OR 0x01]` to 0x38, succeeds, and leaves the rest of the replies |
| Properties.TemperatureScripted | src/stts22h.rs:123-145 | against any CTRL byte, busy answers, an idle answer and any sample, `temperature` issues exactly the expected transactions and returns the sample |
| Properties.TemperatureHappyPath | src/stts22h.rs:123-145 | CTRL 0x08, STATUS 0x01, 0x01, 0x00 and bytes 0x34 0x12: CTRL is written back as 0x09, and the raw sample is 4660 |

## Left out

- The conversion `as f32 / 100.` (src/stts22h.rs:142) is floating point. `Temperature` returns the raw `i16` in hundredths of a degree Celsius.
- `Timer::after_millis(100)` (src/stts22h.rs:134) is a delay. It is not a bus transaction, so it leaves no trace event.
- The `async`/`.await` machinery: every awaited call is one sequential step.
- The shared-bus `Mutex`, `I2cDevice` and `StaticCell` plumbing: the driver owns a `Bus` object instead.
- `src/usb_interface.rs` and `src/main.rs` (clock and power bring-up, the caller that checks WHOAMI against 0xA0, and the sensor-reading task) are not part of this model.
- I2C bus-level detail (start/stop conditions, the individual error kinds): a failure is `Fault(code)` or `NoResponse`, and the driver only passes it on.
- The device side is not modelled. That covers the STATUS threshold flags clearing on read, and the actual CTRL and sample register contents. The device's answers are an arbitrary script, so every property holds for every device behaviour.
- Stts22h.STTS22H.AwaitSample: the source polls for as long as the device keeps answering busy, possibly forever. In the model every transaction consumes a reply, and a script that has run out answers `NoResponse`. So the modelled loop always ends, and a device that never stops being busy ends it with an error instead of a hang.
- Bytes.FromLeBytes: the value is the `i16` itself. The range [-32768, 32767] is the type's range, not a separate ensures.

Facts about src/stts22h.rs that the model keeps as they are:

- The register map has seven registers, at offsets 0x01 to 0x07 (src/stts22h.rs:9-17).
- `temperature` reads STATUS at least once before the sample: the `while` condition calls `status()` first (src/stts22h.rs:133).
- No check follows the loop: BUSY at the sample read is never treated as an error (src/stts22h.rs:137-140).
