# A verified model of the AKB-PCR20X receiver

The AKB-PCR20X is a USB television receiver: a Cypress FX2 microcontroller between the USB bus and an
I2C bus with two demodulators and two tuners.  The repository holds the FX2 firmware and the Linux
driver.  This project models their logic in Dafny and proves what it is relied on for.

| file | what it holds |
|---|---|
| `Bytes.dfy`, `Registers.dfy`, `Errno.dfy`, `Issuing.dfy` | bytes and wrapping words; eight-bit registers as bit sets with the bit-field macros; error numbers; lists of transfers that stop at the first failure |
| `I2cBus.dfy` | the FX2 I2C controller as a state machine over accesses to I2CS and I2DAT, and the frames of NXP UM10204 |
| `I2cTrace.dfy` | what the firmware was told by the outside world, and what follows for the bus |
| `I2cEngine.dfy` | `i2c_write` and `i2c_read` over hardware that may do anything |
| `Protocol.dfy`, `BusLog.dfy`, `Firmware.dfy` | the command language of the EP1 packets, the log of executed commands against the trace of the bus, and `main_loop` |
| `Ports.dfy` | what each command does, pin by pin and byte by byte |
| `Handshake.dfy`, `Diagnosis.dfy`, `Streaming.dfy` | whole runs: the EP1 handshake, the diagnostic counters, the port and stream registers |
| `HostPackets.dfy`, `HostI2c.dfy`, `Transfers.dfy` | the packets of the driver, the I2C tunnel from end to end, and transfers in a row |
| `ImageLoader.dfy` | the firmware download |
| `Arbiter.dfy` | the two frontends that share the device, thread by thread |
| `Pll.dfy`, `Stv6110.dfy`, `Stv6110Bits.dfy` | the PLL arithmetic and the register shadow of the STV6110; its registers bit by bit |
| `RegTables.dfy`, `Mxl5007t.dfy`, `Mxl5007tBits.dfy` | the register tables and the frequency word of the MxL5007T; its tables byte by byte |

## How it is modelled

The outside world is never assumed to behave: status bits, received bytes, interrupts, pin levels, USB
results and I2C results are functions of time or of the number of the transfer, and the theorems hold for
all of them.  Where a theorem is about good behaviour it says so (`Flawless`, `AllDelivered`, `Clean`).

Every access of the firmware to I2CS and I2DAT goes through a ghost bus that turns it into START, byte,
acknowledgement and STOP, and notes whether the access was in turn.  The bus and `cancel_i2c_trans` are
functions of a trace in which every answer is the environment's (`I2cEngine.I2cMaster.Anchored`), so neither an
acknowledgement nor a bus error, a byte, a wait or a cancellation can be made up.  `i2c_write` and `i2c_read`
answer TRUE only with the requested frame as the last one on that bus.  Each command the firmware executes is logged
with what was observed.  The calls in the log cut the trace into consecutive pieces without a gap, and each is
the state of the bus at the end of its piece (`FirmwareLoop.Firmware.Logged`), so that the log speaks of the bus
and of nothing else.  On top of it the packet loop, the handshake, the counters and the host can be stated over
one pure meaning of commands (`Protocol.Run`, `Protocol.Replies`).  `HostI2c.Adapter.I2cXfer` puts the
layers together.

The frontend arbitration is modelled twice: thread by thread with a mutex, in steps as small as one
assignment or one bus write, and as one atomic step a call.  Every interleaving of the first is shown to be
a sequence of the second.

## What came out

Some properties one might expect do not hold of the code.  In each case the model keeps the code's
behaviour and a lemma says exactly when the property holds.

* A successful transfer does not mean that a slave acknowledged: a failed `i2c_write` is only counted by the
  firmware, and a byte written to an address where nobody answers is a success (`Transfers.WriteToNobody`).
  Over a working USB a transfer whose reads are answered has the result `HostI2c.Expected`, a matter of the
  message list alone; otherwise it ends with ETIMEDOUT at the read that was not answered.
* The driver lets payloads of up to 61 bytes through, the firmware takes 16.  A longer write is dropped with
  the read behind it, and on its own still reported as done (`Transfers.LongWriteIsLost`); a longer read is
  dropped after its write was executed (`HostPackets.I2cPacketMeans`, `HostPackets.Executes`).
* `i2c_read` with a length of zero still clocks in and acknowledges one byte.
* `transfer_init` resets the mode pins but not EP6FIFOCFG; port and FIFO agree afterwards exactly if EP6 was
  not streaming before (`Streaming.InitialisedIsConsistent`; `Streaming.ReinitialisedWhileStreaming` is a run
  that ends in disagreement).
* `copy_reg_bits` never starts the second table again.  It overrides the table exactly if no entry it passed
  by differs (`RegTables.CopyIsOverride`); the tables of the driver are in the right order.
* The MxL5007T frequency word fits its two registers exactly up to 1 023 992 187 Hz (`Mxl5007t.WordFits`).
* The setters of the STV6110 ignore write errors (`Stv6110.LostWrites` is a tuning that answers 0 and leaves
  shadow and chip in disagreement).  After any request the two agree in a register exactly if the last write
  to it landed or was lost where it had nothing to change, a read of it came through, or it was not touched
  and agreed before (`Stv6110.Perform`).
* `open_count` has 32 bits.  The device is free exactly while it is zero as long as fewer than 2^32 opens are
  outstanding, and no longer (`Arbiter.CountIsOutstanding`, `Arbiter.OpensCanWrap`).

## Model

| member | source | states |
|---|---|---|
| I2cBus.Next | fw/i2c.c:72-249 | the controller's reaction to one access counts START requests, polls and bus errors one by one, and an access out of turn is never forgotten |
| I2cBus.FramesAreUnambiguous | fw/i2c.c:96-181 | for 7-bit addresses a frame determines address, direction and every data byte |
| I2cBus.FramesOnWires | fw/i2c.c:96-243 | a write frame is START, addr << 1, the data, all acknowledged, STOP; a read frame START, addr << 1 with the lowest bit set, the data with the last byte alone refused, STOP |
| I2cBus.TalkIsHeard | fw/i2c.c:96-181 | a listener takes address, direction and data from such a frame as they were meant |
| I2cEngine.WrappedAdd | fw/i2c.c:47-51 | adding to the 16-bit counters is adding to the exact ones modulo 2^16 |
| I2cEngine.I2cMaster.WaitDone | fw/i2c.c:53-61 | at most 60000 polls; TRUE means that DONE was seen and no cancellation, FALSE that it was cancelled or that DONE was low at the last 60000 polls |
| I2cTrace.CancelledWasRaised | fw/i2c.c:38-39 | cancel_i2c_trans is up only if an interrupt raised it after the call lowered it |
| I2cTrace.FrameIsVouched | fw/i2c.c:96-243 | every acknowledgement and every received byte of a frame was given by the hardware after the START |
| I2cTrace.WaitingWasLow | fw/i2c.c:54-61 | a wait that used up its polls saw DONE low at each of them |
| I2cEngine.I2cMaster.NothingIsMadeUp | fw/i2c.c:38-249 | the same for the state of the engine at any time |
| I2cEngine.I2cMaster.WaitStop | fw/i2c.c:63-70 | at most 60000 polls; ends when STOP is low, when an interrupt cancelled it, or with all polls used up; nothing else changes |
| I2cEngine.I2cMaster.CheckBerr | fw/i2c.c:84-93 | a bus error is counted once; the twentieth also counts a timeout and ends the call, an earlier one asks for another attempt |
| I2cEngine.I2cMaster.Await | fw/i2c.c:98-110 | a wait that is given up counts a timeout and ends the call; else BERR decides |
| I2cEngine.I2cMaster.Send | fw/i2c.c:127-142 | one byte on the wires with the slave's answer |
| I2cEngine.I2cMaster.Begin | fw/i2c.c:81-113 | START and the address with the slave's answer; without a count it fails only when cancelled |
| I2cEngine.I2cMaster.Write | fw/i2c.c:72-156 | for any hardware: the call ends, makes at most 21 START requests and 21*(len+len2+2)*60000 polls, no access out of turn, earlier looks kept, at most 20 bus errors, each counted; TRUE means that the last frame is the address and the two buffers, every byte acknowledged, then STOP, that a listener hears the 7-bit address and the direction, and that there was one attempt for each bus error, one for each refused address (at most one), and one more; an acknowledgement came during the call; FALSE of a call that no interrupt cancelled means 20 bus errors, 60000 polls with DONE low, a data byte refused or two address bytes answered with NACK; only bus errors and given-up waits count a timeout |
| I2cEngine.I2cMaster.WriteOnce | fw/i2c.c:80-152 | one attempt from START to STOP, with its share of polls and counts |
| I2cEngine.I2cMaster.WriteBytes | fw/i2c.c:126-148 | the data loop extends the acknowledged frame by the payload byte by byte, or ends the attempt |
| I2cEngine.I2cMaster.WriteByte | fw/i2c.c:127-147 | one round of it; a byte that is not acknowledged ends the call after a STOP |
| I2cEngine.I2cMaster.Read | fw/i2c.c:158-249 | for any hardware: at most 20 START requests and 20*(max(len,1)+2)*60000 polls, no access out of turn; TRUE means that the last frame is the requested one, heard with the 7-bit address and the direction, its last byte alone refused, STOP before the last fetch, and that the buffer holds the received bytes whatever aborted attempts left, each of them held by the data register during the call, after exactly one attempt more than there were bus errors; FALSE of a call that no interrupt cancelled means 20 bus errors, 60000 polls with DONE low or the address refused; nothing behind the bytes is touched |
| I2cEngine.I2cMaster.ReadOnce | fw/i2c.c:165-246 | one attempt of a read |
| I2cEngine.I2cMaster.ReadByte | fw/i2c.c:208-228 | one round of the loop: the byte fetched is the one on the wires, LASTRD is set in front of the last byte only |
| I2cEngine.I2cMaster.ReadBytes | fw/i2c.c:202-243 | dummy read, LASTRD exactly once and in front of the read that starts the last byte, STOP before the last fetch |
| I2cEngine.I2cMaster.LastByte | fw/i2c.c:230-243 | STOP in front of the fetch of the last byte, which alone is refused |
| Protocol.TakenFits | fw/akb_pcr20x_fw.c:134-301 | a command taken from a packet lies inside it and encodes to the bytes taken |
| Protocol.EncodedIsDecoded | fw/akb_pcr20x_fw.c:128-303 | decoding the encoding of any command list gives the list back |
| Protocol.DecodedIsEncoded | fw/akb_pcr20x_fw.c:128-303 | the decoded commands account for a prefix of the packet byte by byte, and for all of it exactly if nothing was cut short |
| Protocol.DecodeConcat | fw/akb_pcr20x_fw.c:128-303 | a packet that is not cut short, followed by another, decodes to the two command lists |
| Protocol.RunConcat | fw/akb_pcr20x_fw.c:128-303 | executing A then B is executing their concatenation, in state and reply |
| FirmwareLoop.Firmware.constructor | fw/akb_pcr20x_fw.c:58-105 | the state and the endpoint after main_init |
| FirmwareLoop.Firmware.MainLoop | fw/akb_pcr20x_fw.c:107-310 | the countdown and autopointer loop executes exactly what the decoder says, in order; it never leaves the packet; the state is that of the pure run; what it logs is what happened on the bus, all of it, and earlier looks are kept; the reply is handed over if ret_cnt is not zero; nothing happens while a buffer belongs to USB |
| FirmwareLoop.Firmware.Round | fw/akb_pcr20x_fw.c:128-303 | one round consumes one command or gives the packet up, and the countdown falls |
| FirmwareLoop.Firmware.CallRead | fw/akb_pcr20x_fw.c:148-157 | the event of an i2c_read is the state of the bus after the piece of the trace the call added, a failure with its cause included; its data is in the buffer; a failure is counted |
| FirmwareLoop.Firmware.CallWrite | fw/akb_pcr20x_fw.c:179-182 | the event of an i2c_write is the state of the bus after the piece of the trace the call added, a failure with its cause included; a failure changes a counter and nothing else |
| FirmwareLoop.Firmware.Read | fw/akb_pcr20x_fw.c:148 | the call of the engine: its part of the trace, its frame, bus errors, cause and data |
| FirmwareLoop.Firmware.Receive | fw/i2c.c:158-249 | the engine's account of a read in the words of the log |
| FirmwareLoop.Firmware.Transmit | fw/i2c.c:72-156 | the engine's account of a write in the words of the log |
| FirmwareLoop.Firmware.Write | fw/akb_pcr20x_fw.c:179 | the call of the engine: its part of the trace, its frame, bus errors and cause |
| BusLog.OnBusGrows | fw/akb_pcr20x_fw.c:128-184 | what was logged stays true while the trace grows |
| BusLog.OnBusSplits | fw/akb_pcr20x_fw.c:128-184 | the log of a part of a run accounts for its part of the trace |
| BusLog.RecordedIsWitnessed | fw/i2c.c:72-249 | a logged call in terms of the outside world, in the time it took: every acknowledgement and byte of a success, the interrupt behind a cancellation, 60000 polls with DONE low behind a starved wait |
| BusLog.OnBusIsWitnessed | fw/akb_pcr20x_fw.c:128-184 | the same for every call of a log |
| BusLog.ReadBytesWereHeld | fw/i2c.c:206-243 | the bytes of a successful read were in I2DAT while the call ran |
| FirmwareLoop.Firmware.WriteOut | fw/akb_pcr20x_fw.c:174-182 | the payload of the packet goes through the buffer to the call whose frame is on the bus |
| FirmwareLoop.Firmware.PutIn | fw/akb_pcr20x_fw.c:115-119 | a byte goes into the IN buffer, and only while the host does not own it; ret_cnt follows modulo 256 |
| FirmwareLoop.PacketsJoin | fw/akb_pcr20x_fw.c:121-308 | a packet A with B behind it has the state of A, then B, and the two replies exactly while ret_cnt does not wrap around, or by chance |
| FirmwareLoop.Firmware.DoI2cRead | fw/akb_pcr20x_fw.c:134-158 | one round of the loop for CMD_I2C_READ, the cut packet included |
| FirmwareLoop.Firmware.DoI2cWrite | fw/akb_pcr20x_fw.c:160-183 | one round of the loop for CMD_I2C_WRITE, the cut packet included |
| FirmwareLoop.Firmware.DoStatus | fw/akb_pcr20x_fw.c:186-201 | twelve bytes of counters |
| FirmwareLoop.Firmware.DoRegWrite | fw/akb_pcr20x_fw.c:203-213 | one round for CMD_REG_WRITE |
| FirmwareLoop.Firmware.DoRegRead | fw/akb_pcr20x_fw.c:215-226 | one round for CMD_REG_READ |
| FirmwareLoop.Firmware.DoPortWrite | fw/akb_pcr20x_fw.c:228-235 | one round for CMD_PORT_WRITE |
| FirmwareLoop.Firmware.DoPortCfg | fw/akb_pcr20x_fw.c:242-251 | one round for CMD_PORT_CFG |
| FirmwareLoop.Firmware.DoIfConfig | fw/akb_pcr20x_fw.c:253-260 | one round for CMD_IFCONFIG |
| FirmwareLoop.Firmware.Switch | fw/akb_pcr20x_fw.c:262-301 | the stream and mode switches set the registers their command means |
| Ports.ModeSwitch | fw/akb_pcr20x_fw.c:262-301 | a mode switch sets pins 7 and 6 and drives the six address pins as they were read |
| Ports.StreamSwitch | fw/akb_pcr20x_fw.c:262-301 | starting a stream takes the stored bus configuration and writes 0x0c (0x10 for EP2) to its FIFO alone; stopping writes 0x04 to it and nothing else |
| Ports.RegisterAccess | fw/akb_pcr20x_fw.c:203-226 | pin by pin what CMD_REG_WRITE and CMD_REG_READ put on ports D and B |
| Ports.PortAccess | fw/akb_pcr20x_fw.c:228-260 | pin by pin what CMD_PORT_WRITE replaces and raises, and which pins CMD_PORT_CFG makes outputs and puts into the mask |
| Ports.OthersKeepPorts | fw/akb_pcr20x_fw.c:134-240 | the other commands leave the ports alone |
| Ports.PortReplies | fw/akb_pcr20x_fw.c:215-240 | bit b of a port reply is the level of pin b |
| Ports.CommandBytes | fw/akb_pcr20x_fw.c:23-38 | the bytes of every command |
| Ports.BufferIsSixteen | fw/akb_pcr20x_fw.c:143-172 | an I2C command is cut exactly if its length exceeds 16 or the packet ends before its data |
| Ports.AtPowerUp | fw/akb_pcr20x_fw.c:58-105 | the state main_init leaves |
| Ports.HandedOver | fw/akb_pcr20x_fw.c:305-308 | a reply is handed over whole up to 255 bytes |
| Handshake.EveryRunIsFaithful | fw/akb_pcr20x_fw.c:114-119 | over every interleaving of host send, host receive and poll: each packet is executed exactly once and in order, as its bytes say; the replies received are the non-empty replies in order, at most one in flight |
| Handshake.StaysFaithful | fw/akb_pcr20x_fw.c:305-308 | every possible step keeps this |
| Handshake.ReplyWaits | fw/akb_pcr20x_fw.c:115-119 | over any run in which the host does not fetch it, a reply stays as it is and nothing is executed; what the host then gets is that reply |
| Handshake.NothingGetsStuck | fw/akb_pcr20x_fw.c:114-119 | once the host has fetched what is waiting, a poll executes the waiting packet |
| Diagnosis.TotalsAreBounded | fw/i2c.c:84-141 | timeouts never exceed failures; bus errors are at most 19 a call and one more for each timeout |
| Diagnosis.CountersAreTotals | fw/i2c.c:170-241 | over any run the six 16-bit counters are the exact totals modulo 2^16 |
| Diagnosis.StatusTellsTotals | fw/akb_pcr20x_fw.c:186-201 | after any run of host and firmware a STATUS packet that is sent, executed and answered brings twelve bytes that decode to the totals of everything executed before |
| Streaming.ModePinsAlwaysDriven | fw/akb_pcr20x_fw.c:98-104 | under any packets the two mode pins stay outputs and outside the address mask |
| Streaming.ExecKeepsModePins | fw/akb_pcr20x_fw.c:203-301 | every command keeps this |
| Streaming.InitialisedIsConsistent | src/akb_pcr20x.c:424-451 | after transfer_init mode pins and EP6 FIFO agree exactly if EP6 was not streaming before |
| Streaming.ReinitialisedWhileStreaming | src/akb_pcr20x.c:424-451 | a run of host and firmware (initialise, stream on, initialise) after which EP6 streams while the mode is IDLE |
| Streaming.PacketKeepsConsistency | src/akb_pcr20x.c:795-824 | I2C packets leave the ports alone; the stream packets keep the agreement and switch EP6 |
| Streaming.AlwaysConsistent | src/akb_pcr20x.c:795-824 | from power-up, after transfer_init and any list of I2C and stream packets: EP6FIFOCFG is 0x0c exactly if the mode is START, exactly if the last stream packet was an "on", and then IFCONFIG is 0xe3 and IOD 0xe0; the START pin (bit 5) is up exactly if some packet was an "on", in idle mode as well |
| Streaming.RepliesFit | fw/akb_pcr20x_fw.c:305-308 | the reply to a packet of the driver has at most 16 bytes, to a stream packet none |
| HostPackets.I2cPacketMeans | src/akb_pcr20x.c:290-296 | what the firmware understands of an I2C packet, for every length |
| HostPackets.StreamPacketsMean | src/akb_pcr20x.c:433-438 | the three fixed packets decode to their commands |
| HostPackets.PacketBytesAre | src/akb_pcr20x.c:290-367 | the bytes of the I2C packets and of the three fixed packets |
| HostPackets.PlanOne | src/akb_pcr20x.c:217-360 | a packet fits the 64-byte buffer and covers one message or two of the list; a refusal is an error |
| HostPackets.PlanMeans | src/akb_pcr20x.c:217-360 | when a message is refused and with which error: EOPNOTSUPP for lengths 0 or above 255, 10-bit or wide addresses and reads that do not follow a write to their address, EINVAL for what does not fit the buffer |
| HostPackets.RefusalMeans | src/akb_pcr20x.c:217-378 | a list is planned without refusal exactly if each of its messages meets its own conditions: a read follows a write to its address and has 1 to 64 bytes, a write has 1 to 61 bytes, 58 with a read behind it |
| HostPackets.WellFormedPlan | src/akb_pcr20x.c:247-360 | a write, or a write with the read behind it, becomes one packet of exactly its commands |
| HostPackets.WellFormedRequests | src/akb_pcr20x.c:217-378 | a well-formed list is planned without refusal, one command a message, in order |
| HostPackets.FittingExecutes | src/akb_pcr20x.c:217-378 | with pairs the firmware takes, everything a list asks for up to the first refusal is executed |
| HostI2c.I2cEvents | fw/akb_pcr20x_fw.c:134-183 | of an I2C packet the firmware executes nothing, the write, or the write and the read |
| HostI2c.I2cReply | fw/akb_pcr20x_fw.c:148-157 | the firmware answers an I2C packet with nothing or with exactly the bytes asked for |
| HostI2c.Adapter.GenericRw | src/akb_pcr20x.c:302-314 | one exchange: what was executed, what came back and when it fails |
| HostI2c.Adapter.Fill | src/akb_pcr20x.c:290-296 | the bytes of the packet in wbuf |
| HostI2c.Adapter.Exchange | src/akb_pcr20x.c:290-323 | succeeds exactly if USB did its part and the read, if any, was answered; then rbuf holds the answer |
| HostI2c.Adapter.TransferOne | src/akb_pcr20x.c:217-377 | one round: the refusals, the packet, the copy into the read message |
| HostI2c.PacketEvents | src/akb_pcr20x.c:247-323 | whether the read of a packet is answered, and that a read that is not answered comes last |
| HostI2c.Adapter.Round | src/akb_pcr20x.c:217-378 | one round of the loop, with what it means for the whole transfer |
| HostI2c.Adapter.I2cXfer | src/akb_pcr20x.c:205-386 | for any list and any behaviour of USB, firmware and hardware, what is executed is a prefix of what the list asks for, all of it on success; for well-formed lists success means that every message is finished in order, its frame on the bus where the firmware's call answered TRUE, its buffer filled where it is a read, with bytes that were in I2DAT during its call; a listener on the bus hears the address, direction and bytes of each message whose call answered TRUE. The trace of the bus has grown by the calls of these events, one behind the other without a gap, each being the state of the bus when it returned, with the environment as witness. Over a working USB: if every read executed was answered, the result is that of the list (ETIMEDOUT if a pair is too long for the firmware, else the first refusal, else the number of messages), else ETIMEDOUT with the unanswered read executed last; what is executed is known too, down to the write of a pair whose read is too long; a well-formed list fails for an unanswered read only; over flawless hardware it succeeds exactly if nothing is refused and every pair fits; the device is quiet again. In every case nothing but the buffers of read messages has changed |
| HostI2c.Adapter.PutOnTheBus | src/akb_pcr20x.c:205-386 | the part of the log a transfer added is the part of the trace it added |
| HostI2c.FinishedIsHeld | src/akb_pcr20x.c:322-323 | the buffers of finished reads hold bytes that were in I2DAT during their calls |
| HostI2c.FinishedIsHeard | src/akb_pcr20x.c:205-386 | a listener on the bus hears every finished message with its address, its direction and its bytes |
| Transfers.TransferAll | src/akb_pcr20x.c:205-386 | any number of transfers over a working USB: each ends as if it were the only one, nothing else is executed, and together they are all that happened on the bus |
| Transfers.LongWriteIsLost | src/akb_pcr20x.c:353-360 | a write of 17 to 61 bytes succeeds with nothing executed and nothing on the bus |
| Transfers.WriteToNobody | fw/akb_pcr20x_fw.c:179-182 | a byte written to a bus where nobody acknowledges: the transfer succeeds, the firmware's call does not |
| ImageLoader.StoredIsParsed | src/akb_pcr20x.c:159-188 | parsing a stored record list gives it back |
| ImageLoader.ParsedIsStored | src/akb_pcr20x.c:159-188 | for arbitrary bytes the parsed records account for the file from its first byte on, up to a truncation, a flagged record or a rest shorter than a record head |
| ImageLoader.RecordHead | src/akb_pcr20x.c:160-164 | length, flag and address of a record in its first four bytes, high bytes first |
| ImageLoader.ResetDiscipline | src/akb_pcr20x.c:133-196 | a successful download writes 1 to 0xe600 first and 0 to 0xe600 last |
| ImageLoader.PlanIs | src/akb_pcr20x.c:122-196 | for any file: its result and every write of its plan |
| ImageLoader.DownloadRoundTrip | src/akb_pcr20x.c:104-203 | a stored image of at least 13 bytes is downloaded as exactly its writes, between stop and start |
| ImageLoader.Usb.Download | src/akb_pcr20x.c:104-203 | for any bytes and any USB: the parser stays inside and ends, the writes are the planned ones up to the first error, and the result is that error or the planned one |
| ImageLoader.Usb.DownloadRecords | src/akb_pcr20x.c:159-188 | the same for the record loop, and whether the file started the CPU itself |
| ImageLoader.SplittingKeepsImage | src/akb_pcr20x.c:159-188 | one write cut in two at consecutive addresses, modulo 2^16, leaves the memory unchanged |
| ImageLoader.SplitDownload | src/akb_pcr20x.c:104-203 | two stored images that differ in such a cut load the same memory, even where the cut decides who starts the CPU |
| Issuing.IssuedIsPrefix | src/akb_pcr20x.c:406-419 | of a list of transfers everything up to the first failure is made, nothing behind it, and the error is that of the failure |
| Issuing.IssueConcat | src/akb_pcr20x.c:563-573 | the second list is begun only if the first went through |
| Arbiter.SoundStep | src/akb_pcr20x.c:505-525 | a call keeps "free exactly while open_count is zero" except for the open that wraps the counter |
| Arbiter.CountIsOutstanding | src/akb_pcr20x.c:498-529 | with closes matched to successful opens: free exactly while nothing is open, as long as and only as long as fewer than 2^32 opens are outstanding; then open_count is the holder's opens and the other frontend has none |
| Arbiter.OpensCanWrap | src/akb_pcr20x.c:516 | 2^32 opens leave a held device that counts zero |
| Arbiter.EveryRunIsSerial | src/akb_pcr20x.c:505-633 | every interleaving of any number of threads has the results, the shared state and the bus writes of the calls run one after the other |
| Arbiter.NextKeepsInv | src/akb_pcr20x.c:505-633 | every step of every thread keeps this |
| Arbiter.NoTouchWhileHeld | src/akb_pcr20x.c:558-587 | nobody touches the hardware for one frontend while the other is held, or without the mutex |
| Arbiter.PlanSetsUp | src/akb_pcr20x.c:533-545 | what the hardware holds after a whole tune, whatever was there before: 0x77 in the terrestrial demodulator and six values in the satellite one, or four in the terrestrial one, the tuning last |
| Arbiter.SleepFirst | src/akb_pcr20x.c:563-577 | the terrestrial demodulator is asleep before anything else of a satellite tune, and awake before its own tuning |
| Arbiter.NeverBothAwake | src/akb_pcr20x.c:531-634 | over every interleaving: a touch of the satellite demodulator finds the terrestrial one asleep, a terrestrial tuning finds it awake |
| Arbiter.HolderGetsOut | src/akb_pcr20x.c:584-587 | the holder of the mutex is at most twelve of its own steps from the unlock, whatever the others do, and a waiting thread enters a free mutex |
| Arbiter.PoliteIsMatched | src/akb_pcr20x.c:498-529 | callers that only close what they opened make a matched sequence, over every interleaving |
| Arbiter.ArbitrationHolds | src/akb_pcr20x.c:498-634 | the arbitration over every interleaving of such callers |
| Arbiter.Device.constructor | src/akb_pcr20x.c:467-476 | nobody holds the device |
| Arbiter.Device.TsBusControl | src/akb_pcr20x.c:498-529 | the driver's function is the atomic open or close; -16 exactly for an open while the other frontend holds the device |
| Arbiter.Device.I2cWrite | src/akb_pcr20x.c:398-422 | writes a register list up to its first error |
| Arbiter.Device.SetFrontendS | src/akb_pcr20x.c:531-588 | -22 without a callback, -16 while the other frontend holds the device; else terrestrial sleep, satellite wake-up and tuning up to the first error; 0 means that the hardware is set up for the satellite |
| Arbiter.Device.SetFrontendT | src/akb_pcr20x.c:590-634 | the same for the terrestrial frontend; 0 means that the hardware is set up for it |
| Arbiter.TunedIsAllowed | src/akb_pcr20x.c:531-634 | a tune by the driver's function is one the step-by-step model allows |
| Registers.SetThenGet | src/stv6110x_priv.h:37-44 | a value that fits its field is read back and no other bit changes |
| Registers.NeighboursKept | src/stv6110x_priv.h:37-40 | for any value: the other bits survive exactly if the overhang was set there already |
| Registers.OtherFieldKept | src/stv6110x_priv.h:37-44 | setting a field leaves disjoint fields alone |
| Registers.ByteReadsBack | src/stv6110x_priv.h:37-49 | a byte put into a register is read back |
| Registers.NumberSplits | src/stv6110x_priv.h:37-49 | the number in some bits is that of the lower ones and that of the upper ones |
| Bytes.WordSplits | src/stv6110x_priv.h:46-49 | MAKEWORD16 undoes MSB and LSB |
| Bytes.BytesOfWord | src/stv6110x_priv.h:46-49 | MSB and LSB undo MAKEWORD16 |
| Pll.SearchRDiv | src/stv6110x.c:113-146 | for every clock the loop finds the first of 0 to 3 that comes closest, despite its seed and its refresh |
| Pll.FirstClosestIsUnique | src/stv6110x.c:139-146 | there is only one such divider |
| Pll.ChosenR | src/stv6110x.c:121-146 | which dividers are possible for which clocks and bands |
| Pll.DividerIsRounded | src/stv6110x.c:148-153 | the two nested divisions give f*K/ref rounded half up, in twelve bits, without overflow |
| Pll.RoundTrip | src/stv6110x.c:180-186 | get_frequency is less than half a PLL step above and half a step and a kilohertz below |
| Pll.RoundTripAt16MHz | src/stv6110x.c:180-186 | at 16 MHz never more than 500 kHz off |
| Stv6110.TunedReadsBack | src/stv6110x.c:119-156 | every value fits its field: the fields read back as set, the two divider fields spell the divider, the other bits of CTRL1 and STAT1 survive, the registers stand for the frequency |
| Stv6110.BandwidthReadsBack | src/stv6110x.c:191-236 | the bandwidth read back is clamped to 10 to 72 MHz and rounded down to an even number of MHz; the clock runs during the calibration only; other bits survive |
| Stv6110Bits.TunedBits | src/stv6110x.c:119-156 | every bit set_frequency leaves in registers 0, 2, 3 and 5, by number: the clock, the divider as f*2^(r+2 or 3)/ref rounded half up, the divider by four up to 1300000 kHz, the prescaler from 1023001 to 1300000 and above 2046000 kHz |
| Stv6110Bits.FilteredBits | src/stv6110x.c:200-223 | every bit set_bandwidth leaves in registers 4 and 5, during and after the calibration |
| Stv6110Bits.Ctrl2Bits | src/stv6110x.c:238-282 | the output divider in bits 6 and 7 of register 1, half the gain in bits 0 to 3, the others kept |
| Stv6110Bits.ModeBits | src/stv6110x.c:289-301 | sleep clears and wake sets bits 0 to 2 of register 0, the others are kept |
| Stv6110Bits.DefaultBytes | src/stv6110x.c:343-376 | the bytes of the defaults and the configured divider |
| Stv6110Bits.Readings | src/stv6110x.c:173-236 | what get_frequency and get_bandwidth make of the register bits |
| Stv6110.TuneAgrees | src/stv6110x.c:158-161 | register by register: after the writes of set_frequency the two agree exactly where the write landed or had nothing to change, or nothing was written and they agreed |
| Stv6110.FilterAgrees | src/stv6110x.c:210-223 | the same for set_bandwidth: its last write landed, or both were lost where they had nothing to change |
| Stv6110.LoadAgrees | src/stv6110x.c:378-403 | the same for set_params |
| Stv6110.Perform | src/stv6110x.c:94-403 | for every request: shadow and chip agree in a control register exactly if its last write or read went through, or changed nothing |
| Stv6110.LostWrites | src/stv6110x.c:158-170 | a tuning whose writes are all lost answers 0 and ends an agreement |
| Stv6110.Tuner.constructor | src/stv6110x.c:343-376 | the defaults with the configured output divider |
| Stv6110.Tuner.WriteRegs | src/stv6110x.c:52-85 | the range checks, the result, and which registers of the chip change |
| Stv6110.Tuner.ReadReg | src/stv6110x.c:31-50 | one register of the shadow is refreshed, or left alone on an error |
| Stv6110.Tuner.Restart | src/stv6110x.c:343-376 | the shadow of set_params before init |
| Stv6110.Tuner.Init | src/stv6110x.c:94-107 | the chip gets the whole shadow |
| Stv6110.Tuner.Calibrate | src/stv6110x.c:163-168 | one to ten reads, fewer than ten only if the bit has fallen; STAT1 alone changes |
| Stv6110.Tuner.SetFrequency | src/stv6110x.c:109-171 | always 0; the shadow is the tuned one; the chip has exactly the writes that landed, the start of the calibration among them; the wait ends early only when it is over; agreement is kept over a clean path |
| Stv6110.Tuner.GetFrequency | src/stv6110x.c:173-189 | the frequency the refreshed registers stand for, over a clean path those of the chip |
| Stv6110.Tuner.SetBandwidth | src/stv6110x.c:191-226 | the calibrated shadow, the three writes, the start of the calibration among them; the wait ends early only when it is over; agreement kept |
| Stv6110.Tuner.GetBandwidth | src/stv6110x.c:228-236 | the bandwidth the refreshed register stands for |
| Stv6110.Tuner.SetRefclock | src/stv6110x.c:238-262 | one field, one write |
| Stv6110.Tuner.GetBbgain | src/stv6110x.c:264-272 | twice the refreshed field |
| Stv6110.Tuner.SetBbgain | src/stv6110x.c:274-282 | one field, one write, the gain not masked |
| Stv6110.Tuner.SetMode | src/stv6110x.c:284-310 | three bits for sleep and wake, none for other modes; EIO on an error |
| Stv6110.Tuner.GetStatus | src/stv6110x.c:320-332 | the lock bit of the refreshed STAT1 |
| Stv6110.Tuner.SetParams | src/stv6110x.c:378-403 | from any state: over a clean path shadow and chip agree; on success the shadow is the defaults, tuned and calibrated |
| Stv6110.PerformAll | src/stv6110x.c:94-403 | any sequence of requests from the first init on, with any arguments: over a clean path shadow and chip agree in registers 0 to 4 at every return |
| Stv6110.SetAndGetFrequency | src/stv6110x.c:109-189 | the caller's round trip through the chip |
| RegTables.SetRegBits | src/mxl5007t.c:163-175 | every entry of the register gets the masked bits, the array keeps the rest |
| RegTables.SetBitsKeepsColumn | src/mxl5007t.c:163-175 | the register column and the sentinel stay |
| RegTables.SetBitsLooksUp | src/mxl5007t.c:163-175 | what a look-up in the table gives afterwards, for every register |
| RegTables.CopyRegBits | src/mxl5007t.c:177-195 | the in-place two-pointer loop is the walk over the two entry lists; sentinel and rest stay |
| RegTables.WalkAt | src/mxl5007t.c:177-195 | entry by entry: the walk copies exactly the entries it finds |
| RegTables.CopyIsOverride | src/mxl5007t.c:177-195 | the walk is the override of table 2 by table 1 exactly if nothing it did not find differs |
| RegTables.InOrderIsMatched | src/mxl5007t.c:182-194 | for distinct registers the walk finds every entry exactly if the columns are in the same order |
| RegTables.CopyCanLose | src/mxl5007t.c:182-194 | two tables in different order for which an entry is lost |
| RegTables.OverrideLooksUp | src/mxl5007t.c:177-195 | a look-up in the overridden table is one in table 1, then table 2 |
| RegTables.OverrideTakesFirst | src/mxl5007t.c:177-195 | a register both tables have takes its value from table 1 |
| RegTables.WriteRegs | src/mxl5007t.c:454-466 | the entries are written in order up to the first error, which is the result |
| RegTables.LandedAt | src/mxl5007t.c:454-466 | a register the table has once holds its value in the chip |
| RegTables.LandedIsTable | src/mxl5007t.c:454-466 | a table with distinct registers leaves all its values in the chip |
| Mxl5007t.ConvertFrequency | src/mxl5007t.c:409-427 | the six halvings with their strict comparison and the final correction give (f+7812)/15625 |
| Mxl5007t.WordIsNearest | src/mxl5007t.c:424-427 | the only multiple of 15625 Hz within 7812 Hz |
| Mxl5007t.WordIsMonotone | src/mxl5007t.c:409-427 | it grows with the frequency |
| Mxl5007t.WordFits | src/mxl5007t.c:429-430 | it fits the two registers exactly up to 1023992187 Hz |
| Mxl5007t.CalcRfTuneRegs | src/mxl5007t.c:396-436 | the table in place is the specified one |
| Mxl5007t.WordIsReadBack | src/mxl5007t.c:396-436 | the word, the bandwidth index and the 333 MHz bit read back from the table; the word exactly if it fits |
| Mxl5007t.ChipHoldsWord | src/mxl5007t.c:454-466 | after an error-free write the chip's registers 0x0e and 0x0d spell the word |
| Mxl5007t.CalcInitRegs | src/mxl5007t.c:343-363 | which table is returned and what both hold |
| Mxl5007t.SetMode | src/mxl5007t.c:199-222 | the mode bits of the two tables |
| Mxl5007t.SetIfAndClock | src/mxl5007t.c:224-356 | the IF, crystal and clock settings in place |
| Mxl5007t.InitTableSays | src/mxl5007t.c:343-363 | for every valid configuration the table says mode, IF, inversion, crystal, clock enable and amplitude; the registers nobody sets keep their defaults |
| Mxl5007t.SaysEverything | src/mxl5007t.c:224-356 | a table cannot say two configurations |
| Mxl5007t.CableCopyIsOverride | src/mxl5007t.c:358-360 | with the driver's tables the copy is an override |
| Mxl5007t.CopiedTableSays | src/mxl5007t.c:343-363 | the cable table says the whole configuration, its shared registers are those of the first table, its own three the output level and two constants |
| Mxl5007tBits.InitBytes | src/mxl5007t.c:78-96 | the whole table of the air modes, its registers in order and every byte of it; the IF code decodes to the configured frequency |
| Mxl5007tBits.CableBytes | src/mxl5007t.c:98-121 | the whole table of the cable mode |
| Mxl5007tBits.CodeIsDecoded | src/mxl5007t.c:230-268 | each IF code stands for the frequency it was chosen for |
| Mxl5007tBits.RfTuneBytes | src/mxl5007t.c:123-436 | the whole tuning table, its registers in order and every byte of it |

## Left out

- Kernel and framework plumbing: probing, attaching, module tables and the bodies of `dvb_usbv2_generic_rw` and `usb_control_msg_send` are not in the repository's sources; one exchange over USB succeeds, or fails on the way out or in.
- The race between `streaming_ctrl` and `i2c_xfer` on the shared buffer: `streaming_ctrl` takes no lock itself. Each host operation is one step here.
- Replies that stay behind after a host timeout: packets are executed and replies arrive in order, but after a failed exchange nothing is claimed about which request a reply belongs to; a transfer starts with a quiet device.
- HostI2c.Adapter.I2cXfer: the buffers of the messages are values, so two messages that share memory are not modelled.
- FirmwareLoop.Firmware.MainLoop: the IN buffer is a growing sequence of which ret_cnt bytes (modulo 256) are handed over; what a reply longer than EP1 overwrites is not modelled. No packet of the driver makes one (`Streaming.RepliesFit`).
- Interrupts raise `cancel_i2c_trans` at any moment, but only `i2c_write` and `i2c_read` lower it.
- I2cBus.Next: the controller shifts one byte at a time and answers through the status bits; the bits of I2CS that the firmware writes back unchanged, arbitration by other masters and timing are not modelled.
- Registers that main_init does not write (IFCONFIG, and the latches and directions of port B) start at zero in the model.
- FIFORESET, OUTPKTEND, SYNCDELAY and `delay` have no effect on the modelled state.
- `eeprom_read` and `eeprom_write`, suspend and resume, descriptors and the vendor command handlers of the firmware.
- ImageLoader.SplittingKeepsImage: a record that runs over the end of the 64 KiB address space goes on at its beginning; what the FX2 does there is not in the repository.
- `stv6110x_sleep` and `stv6110x_release`, the MxL5007T chip-id, lock-status and soft-reset accesses, its hybrid tuner instances, and all logging.
- The meaning of register values for the analogue circuits, and whether a calibration succeeds.
