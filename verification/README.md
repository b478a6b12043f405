# TileLink-UL testbench core, modelled in Dafny

This project models the protocol logic of a cocotb testbench library for the
TileLink Uncached Lightweight (TL-UL) bus. Each part is written as pure
functions over immutable state. One clock cycle of a simulated component is
one step function. Everything a cycle samples from the bus, or draws at
random, is an explicit argument.

- **TileLinkTypes** (`types.dfy`) covers the A and D packets and the opcode,
  opcode-D and response encodings. It also has the three checks
  `check_address`, `check_mask` and `get_write_opcode`. Each exception becomes
  an `Err`.
- **Splitter** (`splitter.dfy`) is the simple master's `read` and `write`. They
  cut a byte range into power-of-two beats aligned to their size, in three
  phases: growing sizes, whole words, then shrinking sizes. It proves that the
  beats tile the range and that every beat passes the responder's checks. For
  writes it also proves that every byte and enable lands in its lane.
- **Master** (`master.dfy`) holds the simple master's per-source bookkeeping:
  the waiting queues, the in-flight queues, the outstanding sources and the
  collected responses. It models the A/D channel registers and one cycle of
  `process`.
- **Slave** (`slave.dfy`) is the memory-backed responder: its sparse byte
  memory, the accept / serve / release cycle, and `init_memory`,
  `memory_dump` and `do_reset`.
- **Monitor** (`monitor.dfy`) covers the transaction monitor's `Packet` record
  and the `TLMonitor` status. It also has the body of the monitor loop as a
  step over the table of open transactions.
- **Routers** (`routers.dfy`) covers the registration tables of the three DUT
  wrappers and the interfaces they hand out. It also models the handshake
  flags they report to monitors.
- **TrafficGenerator** and **RandomTrafficGenerator** (`traffic.dfy`,
  `random_traffic.dfy`) cover the two random traffic generators: packet
  construction, the A-side prepare/handshake, the D-side back-pressure
  counter, and the sources-in-use set.
- **Oracles**, **BusWords** and **Orderings** (`oracles.dfy`, `buswords.dfy`,
  `orderings.dfy`) cover the test benches' prediction helpers:
  `update_expected_value`, `conver_to_int_list`, `mem_init`, the
  `split_*_to_bus_width` re-cutting, `compare_read_size_values`, and the
  multi-master ordering check.
- **RoundTrip** (`roundtrip.dfy`) states the end-to-end claims of the tests. A
  write through the simple master, served beat by beat by the responder,
  stores exactly the enabled bytes. A read returns exactly the memory's bytes.
  Read, write, read gives `update_expected_value` of the first read.
- **Bits** (`bits.dfy`) holds the arithmetic the rest relies on: powers of
  two, base-2 and base-256 digits, and alignment.

Randomness (`randint`, `random.choice`) is a parameter: `Draws`/`RDraws`
records, the `pick` argument of the master, and the `roll`, `coin` and `wait`
arguments of a generator cycle. The reset line is a boolean argument of each
step. The values a cycle reads from the other side of the bus (`a_ready`,
`d_valid`, the D packet, and so on) are arguments too.

## Model

| member | source | states |
|---|---|---|
| `TileLinkTypes.AOpOfCode` | src/cocotb_TileLink/TileLink_common/TileLink_types.py:38-41 | An A opcode with code `n` exists exactly for 0, 1 and 4, and it is the only opcode with that code. |
| `TileLinkTypes.DOpOfCode` | src/cocotb_TileLink/TileLink_common/TileLink_types.py:43-45 | A D opcode exists exactly for codes 0 and 1, and it is the only one with that code. |
| `TileLinkTypes.RespOfCode` | src/cocotb_TileLink/TileLink_common/TileLink_types.py:8-10 | A response code exists exactly for 0 and 1, and it is the only one with that code. |
| `TileLinkTypes.Encodings` | src/cocotb_TileLink/TileLink_common/TileLink_types.py:38-65 | Get=4, PutFullData=0, PutPartialData=1, AccessAck=0, AccessAckData=1, Processed=0, Denied=1. A default A packet is a Get with mask and data 0. A default D packet is a Processed AccessAckData with data 0. |
| `TileLinkTypes.CheckAddress` | src/cocotb_TileLink/TileLink_common/TileLink_types.py:68-75 | Passes iff `0 <= size`, `2**size <= width` and the address is a multiple of `2**size`. WidthError is raised first, whenever `2**size > width`. SizeError comes next, for a negative size. AlignmentError is raised exactly when the beat fits but is misaligned. |
| `TileLinkTypes.RunLength` | src/cocotb_TileLink/TileLink_common/TileLink_types.py:83-92 | The continuity loop returns `k` exactly when the shifted mask is `2**k - 1`, and fails for every other mask. |
| `TileLinkTypes.CheckMask` | src/cocotb_TileLink/TileLink_common/TileLink_types.py:77-94 | A zero width is the only division error. MaskError holds iff some lane below the address's offset is set, for reads and writes alike. A write passes iff no such lane is set, so sparse masks are allowed. A read passes iff the mask is exactly the `2**size` lanes from the offset. MaskContinuousError holds iff the offset test passes and the shifted mask is not of the form `2**k - 1`. |
| `TileLinkTypes.GetWriteOpcode` | src/cocotb_TileLink/TileLink_common/TileLink_types.py:97-101 | Never Get. PutFullData iff `2**size == width` and exactly the lanes below `width` are set; otherwise PutPartialData. |
| `TileLinkTypes.AcceptedReadMaskLanes` | src/cocotb_TileLink/TileLink_common/TileLink_types.py:83-94 | An accepted read mask sets exactly the `2**size` lanes from the address's offset. |
| `TileLinkTypes.ZeroReadMaskRejected` | src/cocotb_TileLink/TileLink_common/TileLink_types.py:93-94 | An all-zero read mask at an aligned offset is always rejected with MaskSizeError. |
| `TileLinkTypes.SparseWriteMaskAccepted` | src/cocotb_TileLink/TileLink_common/TileLink_types.py:81-82 | A write mask with a single lane at or above the offset passes. |
| `Monitor.NewPacket` | src/cocotb_TileLink/TileLink_common/MonitorInterfaces.py:31-34 | A new record has age 0 and no request or response. |
| `Monitor.Age` | src/cocotb_TileLink/TileLink_common/MonitorInterfaces.py:36-37 | The age grows by exactly one; nothing else changes. |
| `Monitor.AddCmd` | src/cocotb_TileLink/TileLink_common/MonitorInterfaces.py:39-46 | The record holds the seven A fields unchanged; age and response are kept. |
| `Monitor.AddRsp` | src/cocotb_TileLink/TileLink_common/MonitorInterfaces.py:48-55 | The record holds the seven D fields unchanged; age and request are kept. |
| `Monitor.DefaultStatus` | src/cocotb_TileLink/TileLink_common/MonitorInterfaces.py:12-17 | Both handshake flags are false and both packets are the defaults. |
| `Monitor.AgeAll` | src/cocotb_TileLink/monitors/TileLinkULMonitor.py:63-64 | Every open record, and only those, ages by one. Records stay filed under their request's source. |
| `Monitor.TakeA` | src/cocotb_TileLink/monitors/TileLinkULMonitor.py:44-56 | An A handshake without a packet fails. So does a request whose source is open, unless the same sample carries a D handshake for that source. In that case the old record is completed and emitted, the D handshake is consumed, and a new record is opened. |
| `Monitor.TakeD` | src/cocotb_TileLink/monitors/TileLinkULMonitor.py:57-62 | A pending D handshake succeeds iff its source is open. That record is removed, completed with the response and emitted. |
| `Monitor.Sample` | src/cocotb_TileLink/monitors/TileLinkULMonitor.py:44-62 | The sample is accepted exactly when `Accepts` holds of the handshakes. Each of the three failures is named by its condition. |
| `Monitor.Step` | src/cocotb_TileLink/monitors/TileLinkULMonitor.py:43-64 | Under reset only ageing happens. Otherwise the step succeeds iff `Accepts` holds, and the open records are then aged. |
| `Monitor.SampleKeepsOpen` | src/cocotb_TileLink/monitors/TileLinkULMonitor.py:54-62 | The table keeps at most one record per source, filed under its request's source. Every emitted record pairs a request and a response with the same source. |
| `Monitor.SampleCounts` | src/cocotb_TileLink/monitors/TileLinkULMonitor.py:44-62 | No transaction is lost or duplicated: open plus emitted records equals the records before, plus one per A handshake. |
| `Monitor.SameSampleResponse` | src/cocotb_TileLink/monitors/TileLinkULMonitor.py:46-56 | A request answered in the same sample opens and closes one record, which is emitted. The table only ages. |
| `Master.Init` | src/cocotb_TileLink/drivers/SimSimpleMasterUL.py:29-41 | A new master has empty tables, all flags false and default packets, and satisfies the bookkeeping invariant. |
| `Master.Install` | src/cocotb_TileLink/drivers/SimSimpleMasterUL.py:275-279 | The source gets an empty response list and the beats as its waiting queue, and becomes outstanding. The invariant is kept. |
| `Master.Read` | src/cocotb_TileLink/drivers/SimSimpleMasterUL.py:262-309 | Refused while the source is outstanding, and for zero length. Otherwise the Get beats are installed; they tile the range and pass the responder's checks. The invariant is kept. |
| `Master.Write` | src/cocotb_TileLink/drivers/SimSimpleMasterUL.py:193-260 | Refused while the source is outstanding, on a length mismatch, and for zero length. Otherwise the Put beats that carry every byte are installed, and each passes the responder's checks. A whole-word beat takes `get_write_opcode` of its mask, and a smaller beat is PutPartialData. The invariant is kept. |
| `Master.Pick` | src/cocotb_TileLink/drivers/SimSimpleMasterUL.py:96-105 | No beat when nothing waits. Otherwise the picked source's head beat is taken, its rest moves to in-flight, and `a_valid` drops. An empty queue fails. |
| `Master.PickKeepsBooks` | src/cocotb_TileLink/drivers/SimSimpleMasterUL.py:96-105 | Picking keeps every source either waiting or in flight, never both, with the outstanding set their union. |
| `Master.APrep` | src/cocotb_TileLink/drivers/SimSimpleMasterUL.py:107-115 | A beat being sent stays on the bus. Otherwise the next beat is presented valid, or the default packet is presented invalid when nothing waits. The invariant is kept. |
| `Master.AProcess` | src/cocotb_TileLink/drivers/SimSimpleMasterUL.py:117-122 | A handshake happens iff `a_ready` and `a_valid`; it clears `sending_a` and `a_valid`. Nothing else changes. |
| `Master.InnerD` | src/cocotb_TileLink/drivers/SimSimpleMasterUL.py:124-137 | A response for an unknown source, or for one with nothing in flight, fails. Otherwise it is appended to the source's responses. Any remaining beats are requeued, or the source is freed. |
| `Master.InnerDKeepsBooks` | src/cocotb_TileLink/drivers/SimSimpleMasterUL.py:132-137 | Taking a response keeps the waiting/in-flight/outstanding bookkeeping. |
| `Master.DProcess` | src/cocotb_TileLink/drivers/SimSimpleMasterUL.py:139-145 | `d_ready` and the D handshake flag both equal `d_valid`. A valid response succeeds iff `_inner_D` does. The A-channel registers and the invariant are kept. |
| `Master.GetRsp` | src/cocotb_TileLink/drivers/SimSimpleMasterUL.py:311-313 | Fails iff the source has no response list. Otherwise it hands over that list and forgets it, keeping the invariant. |
| `Master.Reset` | src/cocotb_TileLink/drivers/SimSimpleMasterUL.py:147-161 | As written: the waiting queues, outstanding set and responses are cleared, along with the A registers and `d_ready`. The in-flight queues and both handshake flags survive, as does the last D packet. When nothing was in flight, the invariant holds afterwards. |
| `Master.ResetCorrected` | src/cocotb_TileLink/drivers/SimSimpleMasterUL.py:147-161 | The reset as intended also forgets the in-flight queues, and always re-establishes the invariant. |
| `Master.ResetKeepsInFlight` | src/cocotb_TileLink/drivers/SimSimpleMasterUL.py:159-161 | A reset while source 0 is in flight leaves a state that breaks the bookkeeping invariant. |
| `Master.Step` | src/cocotb_TileLink/drivers/SimSimpleMasterUL.py:163-184 | One cycle: `do_reset` as written, or prepare A, take D, then the A handshake. A reset-free cycle preserves the invariant, and `d_ready` follows `d_valid`. A reset re-establishes the invariant when nothing was in flight. |
| `Master.StepCorrected` | src/cocotb_TileLink/drivers/SimSimpleMasterUL.py:163-184 | The same cycle with the intended reset: every cycle, reset or not, preserves the invariant. |
| `Master.PresentedUntilHandshake` | src/cocotb_TileLink/drivers/SimSimpleMasterUL.py:107-122 | A beat being sent stays on the bus, valid and unchanged, until the cycle of its handshake. |
| `Master.StepFailsOnlyOnStrayResponse` | src/cocotb_TileLink/drivers/SimSimpleMasterUL.py:124-145 | Outside reset, a step on a well-kept state fails only for a valid response whose source has nothing in flight. |
| `Master.StepForgetsHandshakes` | src/cocotb_TileLink/drivers/SimSimpleMasterUL.py:117-145 | The handshake flags a state carries into a cycle never influence that cycle's result. |
| `Slave.Init` | src/cocotb_TileLink/drivers/SimSimpleSlaveUL.py:17-31 | Empty memory, `a_ready` and `d_valid` false, default response. |
| `Slave.InitMemory` | src/cocotb_TileLink/drivers/SimSimpleSlaveUL.py:33-35 | Byte `start + i` becomes `arr[i]`; every other byte is kept. |
| `Slave.Dump` | src/cocotb_TileLink/drivers/SimSimpleSlaveUL.py:37-44 | `n` bytes, byte `i` being the stored value or 0 when absent. |
| `Slave.SameDump` | src/cocotb_TileLink/drivers/SimSimpleSlaveUL.py:37-44 | Memories that read the same at every address dump the same. |
| `Slave.Store` | src/cocotb_TileLink/drivers/SimSimpleSlaveUL.py:127-130 | The write loop stores data lane `off + i` at `address + i` exactly where mask bit `off + i` is set. No other byte changes. |
| `Slave.Load` | src/cocotb_TileLink/drivers/SimSimpleSlaveUL.py:133-136 | The read loop fills absent bytes with 0 and so changes no byte as read. Its data word packs the `n` bytes from the address into lanes from `off`. |
| `Slave.LoadLanes` | src/cocotb_TileLink/drivers/SimSimpleSlaveUL.py:133-136 | Lane `t` of the read data is the byte at `address + t - off` inside the beat's lanes, and 0 outside them. |
| `Slave.CreateD` | src/cocotb_TileLink/drivers/SimSimpleSlaveUL.py:76-82 | The response carries the given opcode, param, size, source, sink and data, with error Processed. |
| `Slave.Serve` | src/cocotb_TileLink/drivers/SimSimpleSlaveUL.py:109-139 | The address is reduced modulo `size`, then `check_address` and `check_mask` run before any memory change. The request is served iff it passes both. The response echoes param, size and source, and is AccessAck for writes and AccessAckData for Get. |
| `Slave.ServeWrite` | src/cocotb_TileLink/drivers/SimSimpleSlaveUL.py:125-130 | A served write changes exactly the enabled bytes of the beat, each to its data lane. |
| `Slave.ServeRead` | src/cocotb_TileLink/drivers/SimSimpleSlaveUL.py:131-136 | A served read returns the memory's bytes in lanes from the offset, and 0 elsewhere. It changes no byte a dump can see. |
| `Slave.Accept` | src/cocotb_TileLink/drivers/SimSimpleSlaveUL.py:106-139 | `a_ready` is raised exactly for a valid request while no response is pending, which is then served. Otherwise only `a_ready` drops. |
| `Slave.Release` | src/cocotb_TileLink/drivers/SimSimpleSlaveUL.py:142-145 | A pending response is dropped exactly when `d_ready` is seen; nothing else changes. |
| `Slave.Reset` | src/cocotb_TileLink/drivers/SimSimpleSlaveUL.py:85-92 | Memory cleared, `d_valid` and `a_ready` false, default response. |
| `Slave.Step` | src/cocotb_TileLink/drivers/SimSimpleSlaveUL.py:103-146 | Reset, or accept then release. `a_ready` iff a valid request met no pending response. A response is pending afterwards iff one was pending or produced, and `d_ready` was not seen. Without a request, memory is unchanged. |
| `Splitter.Finish` | src/cocotb_TileLink/drivers/SimSimpleMasterUL.py:275-280 | The transfer succeeds iff it produced at least one beat. |
| `Splitter.Read` | src/cocotb_TileLink/drivers/SimSimpleMasterUL.py:262-309 | Fails exactly for zero length. Otherwise every beat is a Get from the source with size at most `log2 W`. |
| `Splitter.Write` | src/cocotb_TileLink/drivers/SimSimpleMasterUL.py:193-260 | Fails with a length mismatch exactly when the lengths differ, and as empty exactly for zero length. Otherwise every beat is a Put from the source with size at most `log2 W`. |
| `Splitter.UpStep` | src/cocotb_TileLink/drivers/SimSimpleMasterUL.py:200-213 | One growing-size step only advances through the input and stays within it. |
| `Splitter.WriteUp` | src/cocotb_TileLink/drivers/SimSimpleMasterUL.py:199-213 | The growing-size phase only advances through the input and stays within it. |
| `Splitter.WriteWords` | src/cocotb_TileLink/drivers/SimSimpleMasterUL.py:220-233 | The whole-word phase only advances through the input and stays within it. |
| `Splitter.DownStep` | src/cocotb_TileLink/drivers/SimSimpleMasterUL.py:241-253 | One shrinking-size step only advances through the input and stays within it. |
| `Splitter.WriteDown` | src/cocotb_TileLink/drivers/SimSimpleMasterUL.py:240-253 | The shrinking-size phase only advances through the input and stays within it. |
| `Splitter.ReadCovers` | src/cocotb_TileLink/drivers/SimSimpleMasterUL.py:266-308 | On a power-of-two bus, a successful read's beats tile `[address, address + length)` in ascending order, without gaps or overlaps. Every beat is well formed. |
| `Splitter.ReadSplit` | src/cocotb_TileLink/drivers/SimSimpleMasterUL.py:266-302 | On a power-of-two bus, a successful read's beats tile the range and each passes `check_address` and `check_mask`. |
| `Splitter.WriteCoversAll` | src/cocotb_TileLink/drivers/SimSimpleMasterUL.py:199-259 | On a power-of-two bus, a successful write's beats carry every byte and enable in order from the address. Every beat is well formed. |
| `Splitter.WriteSplit` | src/cocotb_TileLink/drivers/SimSimpleMasterUL.py:199-253 | On a power-of-two bus, a successful write's beats carry every byte in its lane and each passes both checks. A whole-word beat takes `get_write_opcode(log2 W, W, mask)`, so it is PutFullData exactly when all its lanes are enabled. Every smaller beat is PutPartialData. |
| `Splitter.WriteOpcodes` | src/cocotb_TileLink/drivers/SimSimpleMasterUL.py:199-253 | On any bus at least a byte wide, every beat of a successful write satisfies the same opcode rule. |
| `Splitter.WriteUpOpcodes` | src/cocotb_TileLink/drivers/SimSimpleMasterUL.py:199-213 | The growing-size phase only makes beats smaller than a word, all PutPartialData. |
| `Splitter.WriteWordsOpcodes` | src/cocotb_TileLink/drivers/SimSimpleMasterUL.py:220-233 | Each whole-word beat's opcode is `get_write_opcode` of its mask. |
| `Splitter.WriteDownOpcodes` | src/cocotb_TileLink/drivers/SimSimpleMasterUL.py:240-253 | Once fewer than `W` bytes remain, the shrinking-size phase only makes beats smaller than a word, all PutPartialData. |
| `Splitter.PutMaskPack` | src/cocotb_TileLink/drivers/SimSimpleMasterUL.py:204-209 | The mask the inner loop ORs together is the number whose bits are `off` zeros followed by the enables. |
| `Splitter.PutDataPack` | src/cocotb_TileLink/drivers/SimSimpleMasterUL.py:204-209 | The data word the inner loop ORs together holds `off` zero lanes followed by the bytes. |
| `Splitter.PutMaskBits` | src/cocotb_TileLink/drivers/SimSimpleMasterUL.py:204-209 | Mask bit `t` is set iff lane `t` carries a byte whose enable is set. |
| `Splitter.PutDataLanes` | src/cocotb_TileLink/drivers/SimSimpleMasterUL.py:204-209 | Data lane `t` holds the byte it carries, and 0 in lanes outside the beat. |
| `Splitter.CarriedLanes` | src/cocotb_TileLink/drivers/SimSimpleMasterUL.py:199-253 | A beat that carries bytes `from .. from + n - 1` has each of them, with its enable, in lane `(address + k) mod W`, and no enable elsewhere. |
| `Splitter.WellFormedLegal` | src/cocotb_TileLink/TileLink_common/TileLink_types.py:68-94 | The arithmetic description of a beat used by the tiling proofs is equivalent to passing both checks. |
| `Splitter.ZeroWidthStalls` | src/cocotb_TileLink/drivers/SimSimpleMasterUL.py:281-287 | As written, on a zero-width bus the word loop never finishes once the range is not yet covered, whatever the number of iterations allowed. |
| `Splitter.WordLoopEnds` | src/cocotb_TileLink/drivers/SimSimpleMasterUL.py:281-287 | On a bus at least one byte wide the word loop ends within `end - a + 1` iterations, where the whole-word phase says. |
| `Splitter.ZeroWidthWriteStalls` | src/cocotb_TileLink/drivers/SimSimpleMasterUL.py:220-228 | As written, on a zero-width bus the write's word loop never finishes, whatever the number of bytes left and of iterations allowed. |
| `Splitter.WriteWordLoopEnds` | src/cocotb_TileLink/drivers/SimSimpleMasterUL.py:220-228 | On a bus at least one byte wide the write's word loop ends within `left + 1` iterations, leaving exactly the bytes the whole-word phase leaves. |
| `TrafficGenerator.RandomPacket` | src/cocotb_TileLink/drivers/SimTrafficGeneratorUL.py:89-114 | `op == 1` gives a full-width PutFullData with an all-ones mask. Other ops give the drawn size with Get or PutPartialData. The address is the draw rounded down to the size. |
| `TrafficGenerator.MaskLanes` | src/cocotb_TileLink/drivers/SimTrafficGeneratorUL.py:104-109 | On a power-of-two bus the mask is confined to the `2**size` lanes from the offset. A Get sets all of them, and a PutPartialData keeps the drawn bits there. |
| `TrafficGenerator.PacketLegal` | src/cocotb_TileLink/drivers/SimTrafficGeneratorUL.py:98-109 | On a power-of-two bus every generated request passes `check_address` and `check_mask`, and its source is at most 15. |
| `TrafficGenerator.NewGen` | src/cocotb_TileLink/drivers/SimTrafficGeneratorUL.py:17-40 | Both budgets start at `num_of_transactions`, with the counter 0, all flags false and default packets. |
| `TrafficGenerator.APrep` | src/cocotb_TileLink/drivers/SimTrafficGeneratorUL.py:116-121 | A fresh request when none is offered or on a redraw roll. `a_valid` is the coin while the send budget lasts and false after. Nothing else changes. |
| `TrafficGenerator.AProcess` | src/cocotb_TileLink/drivers/SimTrafficGeneratorUL.py:123-128 | A handshake iff `a_valid` and `a_ready`. It costs one unit of the send budget and ends the offer. Nothing else changes. |
| `TrafficGenerator.DStep` | src/cocotb_TileLink/drivers/SimTrafficGeneratorUL.py:158-166 | A response is taken iff offered while the counter is not positive. It is stored and costs one unit of the receive budget. The counter restarts at the draw and always drops by one. |
| `TrafficGenerator.Reset` | src/cocotb_TileLink/drivers/SimTrafficGeneratorUL.py:130-140 | The offer is withdrawn and `d_ready` dropped. The handshake flags and budgets are kept. |
| `TrafficGenerator.Step` | src/cocotb_TileLink/drivers/SimTrafficGeneratorUL.py:142-179 | Once the receive budget is used up, or under reset, the cycle is a reset. Otherwise `a_valid` needs a send budget, a handshake needs `a_valid`, and the offer is still open iff there was no handshake. |
| `TrafficGenerator.StepHandshakes` | src/cocotb_TileLink/drivers/SimTrafficGeneratorUL.py:153-170 | In a running cycle, a request is sent iff coin, budget and `a_ready` agree, and a response is taken iff offered after the counter ran out. Each costs one unit of its budget. |
| `TrafficGenerator.StepForgetsHandshakes` | src/cocotb_TileLink/drivers/SimTrafficGeneratorUL.py:153-170 | The handshake flags a state carries into a running cycle never influence its result. |
| `TrafficGenerator.RunBudgets` | src/cocotb_TileLink/drivers/SimTrafficGeneratorUL.py:145-170 | Over any run, each budget drops by exactly the handshakes made on its channel and never below zero. |
| `RandomTrafficGenerator.BitLength` | src/cocotb_TileLink/drivers/SimRandomTrafficGeneratorUL.py:93 | `n.bit_length()`: the least `r` with `n < 2**r`. |
| `RandomTrafficGenerator.Bytes` | src/cocotb_TileLink/drivers/SimRandomTrafficGeneratorUL.py:92 | `bus_width // 8`, at least 1. |
| `RandomTrafficGenerator.Opcode` | src/cocotb_TileLink/drivers/SimRandomTrafficGeneratorUL.py:105-110 | op 0 gives Get, 1 gives PutPartialData, anything else PutFullData. |
| `RandomTrafficGenerator.Address` | src/cocotb_TileLink/drivers/SimRandomTrafficGeneratorUL.py:117-118 | With a correct mask or address, the draw is rounded down to the size; otherwise it is kept. |
| `RandomTrafficGenerator.GetShiftAsWritten` | src/cocotb_TileLink/drivers/SimRandomTrafficGeneratorUL.py:126 | The shift as the source parses it; for size 0 it is `address & (W - 1)`. |
| `RandomTrafficGenerator.GetShift` | src/cocotb_TileLink/drivers/SimRandomTrafficGeneratorUL.py:126 | The intended shift is the address's offset in the bus word. |
| `RandomTrafficGenerator.Build` | src/cocotb_TileLink/drivers/SimRandomTrafficGeneratorUL.py:112-135 | With a correct mask or size, the size is at most `log2 W`. The mask follows the op under a correct mask. A mask wider than four bits fails the width assertion. |
| `RandomTrafficGenerator.GenerateAsWritten` | src/cocotb_TileLink/drivers/SimRandomTrafficGeneratorUL.py:90-135 | As written, a correct Get's mask is the run of `2**size` lanes shifted by the misparsed shift. |
| `RandomTrafficGenerator.Generate` | src/cocotb_TileLink/drivers/SimRandomTrafficGeneratorUL.py:90-135 | With the intended shift, on a power-of-two bus, a correct Get's mask is the run of `2**size` lanes from the address's offset. |
| `RandomTrafficGenerator.AsWrittenAgrees` | src/cocotb_TileLink/drivers/SimRandomTrafficGeneratorUL.py:120-128 | The two generators differ only in the mask of a correct Get of more than one byte. |
| `RandomTrafficGenerator.AsWrittenGetRejected` | src/cocotb_TileLink/drivers/SimRandomTrafficGeneratorUL.py:126 | On a 4-byte bus, a correct 2-byte Get at address 2 gets mask 3 as written, which `check_mask` rejects with MaskError. |
| `RandomTrafficGenerator.IntendedGetAccepted` | src/cocotb_TileLink/drivers/SimRandomTrafficGeneratorUL.py:126 | The same draws with the intended shift give mask 12, which passes both checks. |
| `RandomTrafficGenerator.CorrectGetLegal` | src/cocotb_TileLink/drivers/SimRandomTrafficGeneratorUL.py:117-126 | With the intended shift, every correct Get on a power-of-two bus passes both checks. |
| `RandomTrafficGenerator.WideFullMaskFails` | src/cocotb_TileLink/drivers/SimRandomTrafficGeneratorUL.py:121-129 | On a bus wider than four bytes, every correct PutFullData fails the width assertion. |
| `RandomTrafficGenerator.NewRGen` | src/cocotb_TileLink/drivers/SimRandomTrafficGeneratorUL.py:17-41 | The well-behaved generator's start state with no source in use. |
| `RandomTrafficGenerator.RPrep` | src/cocotb_TileLink/drivers/SimRandomTrafficGeneratorUL.py:137-144 | A fresh request on the same condition as the other generator, drawn with the generator as written (`GenerateAsWritten`). `a_valid` is the coin unless the request's source is in use or the budget is spent. Drawing fails only with the draw's own failure. |
| `RandomTrafficGenerator.RProcess` | src/cocotb_TileLink/drivers/SimRandomTrafficGeneratorUL.py:146-152 | The other generator's handshake, which also adds the request's source to the set in use. |
| `RandomTrafficGenerator.Release` | src/cocotb_TileLink/drivers/SimRandomTrafficGeneratorUL.py:196-197 | After a D handshake the response's source leaves the set in use. A source not in use fails. Without a handshake nothing changes. |
| `RandomTrafficGenerator.RStep` | src/cocotb_TileLink/drivers/SimRandomTrafficGeneratorUL.py:166-206 | Once the receive budget is used up, or under reset, the cycle resets the generator and keeps the set in use. |
| `RandomTrafficGenerator.RStepForgetsHandshakes` | src/cocotb_TileLink/drivers/SimRandomTrafficGeneratorUL.py:177-197 | The handshake flags a state carries into a running cycle never influence its result. |
| `RandomTrafficGenerator.RStepSources` | src/cocotb_TileLink/drivers/SimRandomTrafficGeneratorUL.py:177-197 | A sent request adds its source to the set in use, and a taken response removes its own. The cycle fails iff the response's source is not held. |
| `RandomTrafficGenerator.RStepOutstanding` | src/cocotb_TileLink/drivers/SimRandomTrafficGeneratorUL.py:143-197 | Each step keeps the number of sources in use equal to the requests sent minus the responses taken. |
| `Routers.Register` | src/cocotb_TileLink/drivers/DutMultiMasterMultiSlaveBridgeUL.py:95-104 | The capacity test comes first. Then a taken name, a name used on the other side, and a rebinding each fail with their own error. Success appends the participant and updates both name maps. |
| `Routers.RegisterKeeps` | src/cocotb_TileLink/drivers/DutMultiMasterMultiSlaveBridgeUL.py:98-104 | A registration keeps the tables consistent (inverse name maps, distinct members) and within capacity. A participant already registered cannot register again. |
| `Routers.NewRouter` | src/cocotb_TileLink/drivers/DutMultiMasterMultiSlaveBridgeUL.py:69-93 | A new wrapper has empty tables and no bus names, and satisfies its invariants. |
| `Routers.BridgeRegisterSlave` | src/cocotb_TileLink/drivers/DutMultiMasterMultiSlaveBridgeUL.py:95-104 | The bridge's `register_slave`: the slave table's registration against the master names. Only the slave table changes, and the invariants and bus-name separation are kept. |
| `Routers.BridgeRegisterMaster` | src/cocotb_TileLink/drivers/DutMultiMasterMultiSlaveBridgeUL.py:114-123 | The bridge's `register_master`, symmetrically. |
| `Routers.RegisterSlave` | src/cocotb_TileLink/drivers/DutMasterMultiSlaveUL.py:71-79 | The single-master wrapper's registration, with no master names to clash with. Only the slave table changes. |
| `Routers.RegisterMaster` | src/cocotb_TileLink/drivers/DutMultiMasterSlaveUL.py:48-56 | The single-slave wrapper's registration, with no slave names to clash with. Only the master table changes. |
| `Routers.BridgeRegisterOnce` | src/cocotb_TileLink/drivers/DutMultiMasterMultiSlaveBridgeUL.py:98-101 | In the bridge a participant registers at most once per side. A bus name bound on one side cannot be bound on the other. |
| `Routers.GetMasterInterface` | src/cocotb_TileLink/drivers/DutMultiMasterMultiSlaveBridgeUL.py:106-112 | A known name returns its interface unchanged. A new name fails iff it is taken. Otherwise a fresh interface is made and the name marked taken. |
| `Routers.GetSlaveInterface` | src/cocotb_TileLink/drivers/DutMultiMasterSlaveUL.py:58-62 | Succeeds iff the name is not taken, with a fresh interface under it. |
| `Routers.GetMonitorable` | src/cocotb_TileLink/drivers/DutMultiMasterMultiSlaveBridgeUL.py:131-134 | An existing monitor view is returned unchanged; otherwise a fresh one is made for the master. |
| `Routers.MasterInterfaceIdempotent` | src/cocotb_TileLink/drivers/DutMasterMultiSlaveUL.py:81-87 | Asking twice for a name's master interface gives the same interface and state. |
| `Routers.SlaveInterfaceOnce` | src/cocotb_TileLink/drivers/DutMultiMasterSlaveUL.py:58-62 | A slave interface name can be handed out only once. |
| `Routers.MonitorableIdempotent` | src/cocotb_TileLink/drivers/DutMasterMultiSlaveUL.py:89-92 | Asking twice for a master's monitor view gives the same view and state. |
| `Routers.FoldPointwise` | src/cocotb_TileLink/drivers/DutMultiMasterMultiSlaveBridgeUL.py:183-197 | A monitor-view update loop that visits each view at most once updates exactly the visited views, each once. |
| `Routers.MasterItems` | src/cocotb_TileLink/drivers/DutMultiMasterMultiSlaveBridgeUL.py:183-186 | The loop over handed-out master interfaces pairs each with its bus's sample, in order. |
| `Routers.SlaveItems` | src/cocotb_TileLink/drivers/DutMultiMasterMultiSlaveBridgeUL.py:205-209 | The loop over registered slaves pairs each with the master interface of its bus name and what it drives. |
| `Routers.MonitorCycle` | src/cocotb_TileLink/drivers/DutMultiMasterMultiSlaveBridgeUL.py:183-276 | The four monitor passes of one cycle succeed iff every slave's bus name has a master interface. |
| `Routers.MonitorCycleFlags` | src/cocotb_TileLink/drivers/DutMultiMasterMultiSlaveBridgeUL.py:195-276 | With a slave on its bus, a master's view reports `a_handshake = a_valid && a_ready` and `d_handshake = d_valid && d_ready`, with the bus's request and the slave's response. Without a slave, `a_handshake` is `a_valid` alone and the old response stays, masked by `d_ready`. |
| `Routers.MonitorCycleOthers` | src/cocotb_TileLink/drivers/DutMultiMasterMultiSlaveBridgeUL.py:195-276 | A monitor view of no handed-out interface is left alone. |
| `Oracles.Blank` | tests/test_tl/ULSimMasters/test_TLUL_Masters.py:26 | `n` zero bytes. |
| `Oracles.UpdateExpected` | tests/test_tl/ULSimMasters/test_TLUL_Masters.py:25-29 | The length is kept; byte `i` is the written byte where enabled and the previous one elsewhere. |
| `Oracles.UpdateIdempotent` | tests/test_tl/ULSimMasters/test_TLUL_Masters.py:25-29 | Applying the same masked write twice is applying it once. |
| `Oracles.UpdateNothing` | tests/test_tl/ULSimMasters/test_TLUL_Masters.py:25-29 | A write with no enabled byte changes nothing. |
| `Oracles.UpdateDisjointCommute` | tests/test_tl/ULSimMasters/test_TLUL_Masters.py:25-29 | Writes whose enables do not overlap can be applied in either order. |
| `Oracles.ApplyRows` | tests/test_tl/ULSingleMasterDriver/test_TLUL_Master.py:94-96 | Applying an ordering of writes keeps the word's length. |
| `Oracles.MemInit` | tests/test_tl/ULSimMasters/test_TLUL_Masters.py:92-104 | One byte per enable. `Oracles.MemInitIsUpdate` states which byte each one is. |
| `Oracles.MemInitIsUpdate` | tests/test_tl/ULSimMasters/test_TLUL_Masters.py:92-104 | The `mem_init` image is the masked update of an all-zero memory. |
| `Oracles.Chunk` | tests/test_tl/ULSimMasters/test_TLUL_Masters.py:71-73 | The `n` bytes of a data word from lane `off`. |
| `Oracles.ConvertToIntList` | tests/test_tl/ULSimMasters/test_TLUL_Masters.py:67-75 | One byte per byte the responses span. The first response contributes its `2**d_size` bytes from lane `base mod W`. |
| `Oracles.Slice` | tests/test_tl/ULSingleMasterDriver/test_TLUL_Master.py:37 | Python slicing: the exact slice when in bounds, empty past the end, and never longer than asked. |
| `Oracles.Patch` | tests/test_tl/ULSingleMasterDriver/test_TLUL_Master.py:173-175 | The sizes test's update loop: entry `off + i` takes written byte `i` where enabled; everything else is kept. |
| `Oracles.PatchIsUpdate` | tests/test_tl/ULSingleMasterDriver/test_TLUL_Master.py:173-175 | Within the written window the loop is `update_expected_value`, and outside it nothing changes. |
| `Oracles.CompareReadSizeWithin` | tests/test_tl/ULSingleMasterDriver/test_TLUL_Master.py:34-38 | For a whole expected word, the comparison looks at exactly the `2**k` bytes from the offset rounded down to `2**k`. |
| `BusWords.FirstWord` | tests/test_tl/ULSingleMasterDriver/test_TLUL_Master.py:44 | `(address // W) * W` is a word address at or below the address. |
| `BusWords.ReadLanes` | tests/test_tl/ULSingleMasterDriver/test_TLUL_Master.py:49-52 | The lane loop puts the next input byte in each lane the range covers, keeps the others, and advances the offset by the lanes covered. |
| `BusWords.ReadWords` | tests/test_tl/ULSingleMasterDriver/test_TLUL_Master.py:46-53 | The word loop of one entry fills every touched word from the scan's start and leaves the rest alone. |
| `BusWords.ReadEntryKeys` | tests/test_tl/ULSingleMasterDriver/test_TLUL_Master.py:43-53 | An entry adds exactly the words its range touches. |
| `BusWords.ReadEntryLane` | tests/test_tl/ULSingleMasterDriver/test_TLUL_Master.py:43-53 | An entry overwrites the lanes its range covers with its bytes, zero-fills new words, and keeps everything else. |
| `BusWords.SplitReadKeys` | tests/test_tl/ULSingleMasterDriver/test_TLUL_Master.py:41-54 | The keys of `split_read_to_bus_width` are exactly the words some entry touches. |
| `BusWords.SplitReadValues` | tests/test_tl/ULSingleMasterDriver/test_TLUL_Master.py:41-54 | Each lane holds the byte of the last entry covering it, or 0. |
| `BusWords.SplitReadContents` | tests/test_tl/ULSingleMasterDriver/test_TLUL_Master.py:41-54 | Both of the above for every word and lane. |
| `BusWords.RowAt` | tests/test_tl/ULSingleMasterDriver/test_TLUL_Master.py:68-77 | A padded row is a whole word of values and enables. |
| `BusWords.WriteLanes` | tests/test_tl/ULSingleMasterDriver/test_TLUL_Master.py:70-77 | The lane loop appends exactly the padded row: covered lanes take the next value and enable, others 0 and false. |
| `BusWords.Row` | tests/test_tl/ULSingleMasterDriver/test_TLUL_Master.py:68-78 | The whole lane loop builds exactly the padded row, and advances the offset by the lanes covered. |
| `BusWords.WriteWords` | tests/test_tl/ULSingleMasterDriver/test_TLUL_Master.py:65-79 | The word loop of one write appends its padded row to every touched word from the scan's start. |
| `BusWords.WriteEntryRows` | tests/test_tl/ULSingleMasterDriver/test_TLUL_Master.py:62-79 | A write appends its padded row to exactly the words it touches. |
| `BusWords.Flatten` | tests/test_tl/ULSingleMasterDriver/test_TLUL_Master.py:61-62 | The nested loops visit one write per (address, row) pair. |
| `BusWords.SplitWritesRows` | tests/test_tl/ULSingleMasterDriver/test_TLUL_Master.py:57-80 | The keys of `split_write_to_bus_width` are the touched words. Each holds one padded row per touching write, in order. |
| `BusWords.RowsApplied` | tests/test_tl/ULSingleMasterDriver/test_TLUL_Master.py:57-80 | Applying a word's rows in order gives, in each lane, the byte the writes leave there. |
| `Orderings.CombinationsMembers` | tests/test_tl/ULSingleMasterDriver/test_TLUL_Master.py:85 | `combinations(s, r)` yields exactly the subsequences of length `r`. |
| `Orderings.PowersetMembers` | tests/test_tl/ULSingleMasterDriver/test_TLUL_Master.py:83-85 | `get_powerset` yields exactly the non-empty subsequences. |
| `Orderings.PermsMembers` | tests/test_tl/ULSingleMasterDriver/test_TLUL_Master.py:93 | `permutations(s)` yields exactly the lists with the same elements as `s`. |
| `Orderings.PermsSound` | tests/test_tl/ULSingleMasterDriver/test_TLUL_Master.py:93 | Every permutation holds the elements of `s`. |
| `Orderings.PermsComplete` | tests/test_tl/ULSingleMasterDriver/test_TLUL_Master.py:93 | Every rearrangement of `s` is among the permutations. |
| `Orderings.AnyOrder` | tests/test_tl/ULSingleMasterDriver/test_TLUL_Master.py:93-98 | True iff some listed ordering turns the start word into the read. |
| `Orderings.AnySubset` | tests/test_tl/ULSingleMasterDriver/test_TLUL_Master.py:92-98 | True iff some ordering of some listed subset turns the start word into the read. |
| `Orderings.CompareMultimasterReachable` | tests/test_tl/ULSingleMasterDriver/test_TLUL_Master.py:88-101 | The multi-master check accepts a read iff some ordering of some non-empty subset of the writes, applied with `update_expected_value`, produces it. |
| `Orderings.AcceptedReachable` | tests/test_tl/ULSingleMasterDriver/test_TLUL_Master.py:88-101 | What the check accepts is reachable. |
| `Orderings.ReachableAccepted` | tests/test_tl/ULSingleMasterDriver/test_TLUL_Master.py:88-101 | What is reachable, the check accepts. |
| `RoundTrip.ServeAll` | src/cocotb_TileLink/drivers/SimSimpleSlaveUL.py:109-139 | Serving beats in order yields one response per beat, of the beat's size. |
| `RoundTrip.ServeWriteTiles` | src/cocotb_TileLink/drivers/SimSimpleSlaveUL.py:125-130 | The beats of a write, served in order, leave every enabled byte of the range written and every other byte as it was. |
| `RoundTrip.ServeReadTiles` | tests/test_tl/ULSimMasters/test_TLUL_Masters.py:67-75 | The beats of a read, served in order and turned back into bytes, are the memory's bytes. |
| `RoundTrip.ServeReadKeeps` | src/cocotb_TileLink/drivers/SimSimpleSlaveUL.py:131-136 | Serving a read's beats changes no byte. |
| `RoundTrip.WriteRoundTrip` | tests/test_tl/ULSimMasters/test_TLUL_Masters.py:114-118 | A write through the simple master sets every enabled byte of the range to its value and keeps every other byte. |
| `RoundTrip.ReadRoundTrip` | tests/test_tl/ULSimMasters/test_TLUL_Masters.py:145-147 | A read through the simple master, turned back into bytes, is the memory's bytes, and no byte changes. |
| `RoundTrip.ReadWriteRead` | tests/test_tl/ULSimMasters/test_TLUL_Masters.py:222-242 | Read, masked write, read: the second read is `update_expected_value` of the first. |
| `RoundTrip.InitRandomData` | tests/test_tl/ULSimMasters/test_TLUL_Masters.py:107-118 | Writing the whole memory from address 0 leaves the dump equal to `update_expected_value` of the dump before. |
| `RoundTrip.ReadSizesAfterWrite` | tests/test_tl/ULSingleMasterDriver/test_TLUL_Master.py:159-182 | With the simulated memory responder (`Slave.Serve`) serving the beats: read the word, write `2**w` aligned bytes, patch the word, then read `2**r` bytes. `compare_read_size_values` accepts. |
| `RoundTrip.SizesCompare` | tests/test_tl/ULSingleMasterDriver/test_TLUL_Master.py:173-182 | The memory-level core of the sizes test: the write stays in the word, and the comparison accepts. |
| `RoundTrip.GatherAfterPatch` | tests/test_tl/ULSingleMasterDriver/test_TLUL_Master.py:173-175 | The bytes a read finds after a masked write inside one word are the patched word's slice. |

## Left out

- `Master.Read`: requires a power-of-two bus width in bytes (`IsPow2(W)`). The source accepts any `bus_width`. TL-UL data buses are powers of two bytes wide.
- `Master.Write`: requires a power-of-two bus width in bytes, for the same reason.
- `Splitter.ReadSplit`: requires a power-of-two width. So do `Splitter.ReadCovers`, `Splitter.WriteSplit`, `Splitter.WriteCoversAll`, `TrafficGenerator.PacketLegal`, `TrafficGenerator.MaskLanes`, `RandomTrafficGenerator.CorrectGetLegal` and every `RoundTrip` lemma. On other widths the phases do not line up with word boundaries, and nothing is claimed for them.
- `Splitter.Read`: requires `1 <= W` (a bus at least one byte wide). `Splitter.Write` does too. On narrower buses the source's word loop never ends; see Findings.
- `Splitter.Write`: write values are bytes (`seq<Byte>`). The source's `write` accepts any integer and ORs a larger value into neighbouring lanes (SimSimpleMasterUL.py lines 207, 226 and 247). Every caller in the tests passes `randint(0, 255)`.
- `Master.Write`: write values are bytes, for the same reason.
- `RoundTrip.ReadSizesAfterWrite`: the sizes test (test_TLUL_Master.py lines 140-185) drives the HDL device behind `DutMultiMasterSlaveUL`, whose memory behaviour is not part of this model. The lemma serves the beats with the simulated memory responder `Slave.Serve` as a stand-in, so it states what the test accepts against a responder that behaves like `SimSimpleSlaveUL`.
- `Slave.InitMemory`: memory holds bytes (0..255). The source's `init_memory` stores any integer, and a read ORs a larger value into neighbouring lanes. Every caller in the tests stores bytes.
- `Slave.Load`: the data word is the sum of the byte lanes, which equals the source's OR only because memory holds bytes.
- `RoundTrip.WriteRoundTrip`: requires `address + length <= size`, so no beat wraps around the responder's address space. The responder reduces each beat's address modulo `size`, and the unaligned-address test can reach past it. `RoundTrip.ReadRoundTrip`, `RoundTrip.ReadWriteRead`, `RoundTrip.InitRandomData` and `RoundTrip.ReadSizesAfterWrite` carry the same requirement.
- `RoundTrip.ReadRoundTrip`: proved at transaction level. The master's beats are served by `Slave.Serve` in order (`RoundTrip.ServeAll`), not by composing `Master.Step` and `Slave.Step` cycle by cycle. The same holds for `RoundTrip.WriteRoundTrip` and the lemmas built on them.
- `Master.Read`: a zero-length read returns `Err(EmptyTransfer)` with the state unchanged. The source first installs an empty response list, the outstanding mark and an empty queue, and then fails `assert len(cmds)>0`. The state after a failed assertion is not modelled. `Master.Write` does the same.
- `TileLinkTypes.AOpOfCode`: packet fields are natural numbers, so negative values are not modelled. The ValueError that `TileLinkULAOP(...)`/`TileLinkULDOP(...)`/`TileLinkULResp(...)` raise in the monitor's `add_cmd`/`add_rsp`, and in the router's bus sampling, is not modelled: records hold typed opcodes.
- `TrafficGenerator.RandomPacket`: requires `8 <= busWidth`. The same holds for the other generator functions and `RandomTrafficGenerator.Bytes`. A narrower generator bus is meaningless.
- `Master.Pick`: requires the drawn source to be one of the waiting ones, because `random.choice` only draws among them.
- `Master.Reset`: models `do_reset` as written, including the two misspelled assignments (`was_a_handhake`, `was_d_handhake`), by keeping the handshake flags. `Master.StepForgetsHandshakes`, `TrafficGenerator.StepForgetsHandshakes` and `RandomTrafficGenerator.RStepForgetsHandshakes` prove that no later cycle reads them.
- `TrafficGenerator.Reset`: keeps the handshake flags for the same reason. So does `RandomTrafficGenerator.RStep`.
- `Orderings.PowersetMembers`: states which subsets are yielded, not the order. The check's result does not depend on the order.
- Exceptions are `Err` results, and the state after an exception is not modelled. `IndexError`/`KeyError` from Python indexing become `Err` where the source can reach them: `get_rsp` of an unknown source, `_inner_D` for a source with nothing in flight, and an empty queue. Elsewhere they are preconditions on lengths.
- cocotb scheduling is not part of this model: `RisingEdge`/`ReadWrite` awaits, `Event`s, `source_free`, `finish`/`sim_finished`, and reset sampling through simulator handles. Each `process` iteration is one step function.
- The routers' `cocotb_bus` signal forwarding and settle loop are not modelled, because the routing happens in the device under test. `Routers` models the registration tables, the interfaces handed out, and the monitor views.
- Logging (`SimLog` warnings, the monitor's `log.info`, `Packet.__str__`) is left out. So are `expect_read_error`/`expect_write_error`, which only select a warning.
- The single-slave masters' and single-master responder's `register_slave`/`register_master` ("Too many slaves/masters") are left out. Each is a one-line capacity test of the same shape as `Routers.Register`.
- `src/cocotb_TileLink/TileLink_common/Interfaces.py` is not part of this model: it holds only abstract base classes. `SimCheckInvalidSlaveUL` is not part of this model either.
- The orchestration-only tests of the bridge and multi-input responder are left out; their helpers are the ones modelled here.

## Findings

| source | as written | input that shows it | evidently intended | confidence | as-written member | corrected member |
|---|---|---|---|---|---|---|
| src/cocotb_TileLink/drivers/SimRandomTrafficGeneratorUL.py:126 | `address & (bus_byte_width-1 >> size)` parses as `address & ((W - 1) >> size)`, so a "correct" Get's mask is not shifted to the address's lane | bus_width 32 (W = 4), address 2, size 1, op 0, correct_mask: the shift is `2 & (3 >> 1) = 0`, giving mask `0b0011`, which `check_mask` rejects with MaskError | shift by the address's offset `address & (W - 1)`, as the other generator does: mask `0b1100`, which passes | high (not executed) | `RandomTrafficGenerator.GenerateAsWritten`, `RandomTrafficGenerator.AsWrittenGetRejected`, `RandomTrafficGenerator.RPrep` (the generator's cycle draws with it) | `RandomTrafficGenerator.Generate`, `RandomTrafficGenerator.IntendedGetAccepted`, `RandomTrafficGenerator.CorrectGetLegal` |
| src/cocotb_TileLink/drivers/SimSimpleMasterUL.py:159-161 | `do_reset` clears `a_packet_queue`, `a_packet_sources` and `d_packets`, but not `a_packet_queue_send` | a reset while source 0 has a beat in flight: afterwards `a_packet_queue_send` still holds source 0, which is neither outstanding nor in `d_packets`, so the bookkeeping invariant fails. A bare response for source 0 then raises KeyError at line 132. If `read`/`write` reissues source 0 and a response for it arrives before the new first beat is sent, that response pops the stale in-flight queue into `a_packet_queue`, replacing the new request's beats | reset also forgets the in-flight queues, so every in-flight source is outstanding | medium (not executed) | `Master.Reset`, `Master.ResetKeepsInFlight`, `Master.Step` | `Master.ResetCorrected`, `Master.StepCorrected` |
| src/cocotb_TileLink/drivers/SimSimpleMasterUL.py:281 | `while address+self.bus_byte_width <= end_address` with `bus_byte_width = bus_width//8` | `bus_width` 4 (W = 0), `read(0, 1)`: the loop test stays `0 <= 1` and the loop never ends. `write(0, 1, ...)` loops the same way at line 220: `len(value) >= 0` always holds and `range(0)` consumes nothing | the master is built only for buses at least one byte wide, and then the word loop ends | medium (not executed) | `Splitter.ZeroWidthStalls`, `Splitter.ZeroWidthWriteStalls` | `Splitter.WordLoopEnds`, `Splitter.WriteWordLoopEnds`, with `Splitter.Read`/`Splitter.Write` requiring `1 <= W` |
