# A model of the Tetris console's firmware and game logic

The repository is a Tetris game for an FPGA. A Nios II processor runs C firmware on Intel's hardware abstraction
layer and drives a MAX3421E USB host controller over SPI to read a keyboard; the game itself is a SystemVerilog
state machine. This project models the parts whose correctness spans many steps and proves properties of them over
all inputs, all interleavings or all runs.

| files | models |
|---|---|
| `RingBuffer`, `JtagUart` | the interrupt-driven JTAG UART driver: two ring buffers shared without a lock by foreground calls and the interrupt routine |
| `AlarmTime`, `AlarmList`, `AlarmSchedule`, `AlarmClock` | the alarm facility: a wrapping 32-bit tick counter and an intrusive circular list, refined to unbounded deadlines |
| `Spi`, `Max3421e` | the SPI command loop over a model of the SPI core, and the register accesses made of it |
| `TransferSpec`, `UsbTypes`, `UsbTransfer` | USB packet dispatch, IN reassembly, control transfers and data toggles |
| `UsbTask`, `HidProbe` | enumeration as a state machine shared with the interrupt handler; the HID drivers' descriptor walk |
| `FdPool` | the file descriptor pool with exclusive locks |
| `WallClock`, `LogPrintf` | `gettimeofday`/`settimeofday` and the integer formatter of the logging printf |
| `GameLogic` | the game's registers: frame divider, motions, board |
| `Words` | fixed-width integers, `Option`, error numbers |

Code that changes state is a class whose methods are proved against functions of its state, or against histories
kept in ghost fields; the main results are lemmas about those functions and histories. `dafny verify dfyconfig.toml`
checks everything.

## How the environment appears

* Concurrency: between any two steps of a foreground UART routine, `Uart.Interleave` lets any finite number of device
  moves, interrupt activations and alarm callbacks happen. The frames of the methods say what each side may write.
* Devices: the UART and SPI cores are modelled from their Verilog, the USB device as a toggle for each endpoint and
  arbitrary answers. Arbitrary values are Dafny's nondeterministic assignment.
* Waiting: loops that poll hardware take a budget of polls, and report `Waiting` (or `false`) when observation stops.
  What is proved of them holds for every budget.
* Results of transfers, lookups and driver callbacks that another component decides are parameters.

## What the proofs found

* `alt_alarm_start` with a delay of 2^32 - 1 expires on the next tick unless the counter is at its maximum
  (`AlarmTime.StartIsExactIff`).
* A callback that stops the saved successor sends the loop of `alt_tick` to an alarm that is linked to itself
  (`AlarmClock.Clock.CallbackSparesIff`). The loop stays there, and the tick never ends, unless that alarm is due and its
  own callback starts it again (`AlarmClock.Clock.VisitStopped`, `AlarmClock.Clock.TickGoesOn`, and
  `AlarmClock.EndlessTick` for a run from start-up).
* The device decides RVALID a cycle before it counts RAVAIL. A byte that comes in between makes the interrupt routine
  switch receive interrupts off although the ring has room (`JtagUart.Uart.Receive`); there is always data in the ring
  then, so the next read turns them on again and nothing is stranded (`JtagUart.Uart.SomethingWillHappen`).
* An SPI command that moves no byte never completes (`Spi.SpiCore.Command`), and `MAXbytes_rd` of no bytes overwrites
  the byte before the buffer, so an empty IN packet corrupts the one before it (`TransferSpec.ReassemblyIsExactIff`).
* The transfer timeout is missed for over an hour when the millisecond product wraps first
  (`TransferSpec.DeadlineReachedIff`).
* `usb_task_state++` in the bus event handler would break the order of enumeration exactly in states 0x1f, 0x2f and
  0x3f (`UsbTask.StepKeepsOrderIff`). With the connection interrupt the only one enabled, as `MAX3421E.c:198` has it,
  no run reaches them, so enumeration is in order on every run (`UsbTask.RunningIsEarned`). But when a bus event comes
  together with a connection, the device is reset without its settle time, and when it comes with a disconnection,
  `USB_Task` does not notice and the device table is not cleared (`UsbTask.SettleServedIff`, `UsbTask.SettleSkipped`,
  `UsbTask.DisconnectClearsIff`).
* A transfer that times out right after a relaunch returns 0xff with its token in flight. The packet it may still bring
  is accepted with nobody to read it; the toggles are then out of step until the device's next packet has been dropped
  as well, and the transfer-done flag left behind can make the next call read its result too early, as busy
  (`UsbTransfer.Host.Attempt`, `UsbTransfer.Host.Poll`).
* The descriptor walk never ends exactly when it comes to a descriptor of length 0 before one of the wanted type
  (`HidProbe.StuckIff`, `HidProbe.ZerosAreEndless`).
* A packet size of 256 or more in the record, passed in a byte, ends every longer transfer in the wrong place
  (`TransferSpec.LargeSizeNeedsOnePacket`).
* The lock scan stops one entry short of the open scan: a lock may be granted beside one undetected sharer, yet two
  holders never coexist (`FdPool.GrantIsExclusiveIff`, `FdPool.AlwaysOneHolder`). The comment of `alt_fd_lock` and of
  `alt_file.h` promises exclusivity, and release by `close`; the standard descriptors keep their lock through `close`
  (`FdPool.Pool.Close`).
* `settimeofday` multiplies in 32 bits, so a time set after the product has wrapped reads back wrong by a constant,
  unless the number of wraps is a multiple of 15625 (`WallClock.ClockLawIff`). Its comment promises that an immediate
  read returns the time set.
* In the game, reset does not place the blocks, the reset branch of the downward move is never taken, and the blocks
  stay on the board exactly when the motion fits them at every frame edge, which a Clk edge between frames ensures. The
  instance in `pong/lab62.sv:231` leaves that port unconnected.

## Model

| member | source | states |
|---|---|---|
| `RingBuffer.WriterRunIsFreeSpace` | pong/software/usb_kb_bsp/drivers/src/altera_avalon_jtag_uart_write.c:109-114 | the three-way test computes exactly the contiguous free slots behind the in index, one slot of the ring always staying empty |
| `RingBuffer.ReaderRunIsLiveBytes` | pong/software/usb_kb_bsp/drivers/src/altera_avalon_jtag_uart_read.c:125-128 | the two-way test computes exactly the contiguous live bytes from the out index on |
| `RingBuffer.ContentsAreStreamTail` | pong/software/usb_kb_bsp/drivers/src/altera_avalon_jtag_uart_init.c:149-150 | what was removed, followed by the region between the two indices (through the wrap), is the whole stream |
| `JtagUart.Uart.SomethingWillHappen` | pong/software/usb_kb_bsp/drivers/src/altera_avalon_jtag_uart_init.c:156-190 | no stranded data in any state between calls: undelivered output has a write interrupt pending or a device FIFO still above its threshold; paused input has a read interrupt pending, or there is data in the ring for the next read, which turns it on again; and then the ring is full, unless a late read has switched RE off |
| `JtagUart.Uart.RingsRefineQueues` | pong/software/usb_kb_bsp/drivers/src/altera_avalon_jtag_uart_init.c:132-184 | refinement to two queues: returned bytes followed by the live receive region are the bytes taken from the device; sent bytes followed by the live transmit region are the bytes published |
| `JtagUart.Uart.constructor` | pong/software/usb_kb_bsp/drivers/src/altera_avalon_jtag_uart_init.c:66-100 | initial state: empty rings, read interrupts on, write interrupts off, invariant established |
| `JtagUart.Uart.ReadData` | pong/lab62_soc/synthesis/submodules/lab62_soc_jtag_uart_0.v:436-520 | a read of the data register pops the oldest received byte if there is one; RVALID is decided a cycle before RAVAIL, which may count a byte that came in between |
| `JtagUart.Uart.WriteData` | pong/lab62_soc/synthesis/submodules/lab62_soc_jtag_uart_0.v:436-520 | a write of the data register appends to the transmit FIFO and is lost when that FIFO is full |
| `JtagUart.Uart.Irq` | pong/software/usb_kb_bsp/drivers/src/altera_avalon_jtag_uart_init.c:108-197 | the interrupt routine terminates for every behaviour of the host, keeps both ring invariants, only extends the taken and sent streams, and ends only when neither interrupt is pending |
| `JtagUart.Uart.Service` | pong/software/usb_kb_bsp/drivers/src/altera_avalon_jtag_uart_init.c:117-196 | a pass goes on exactly if something was pending; each half that was pending has moved a byte or turned its enable off; every such pass strictly decreases the work left |
| `JtagUart.Uart.Receive` | pong/software/usb_kb_bsp/drivers/src/altera_avalon_jtag_uart_init.c:125-167 | the receive half moves at least one byte or switches RE off; RE goes off with room in the ring if and only if a read of the data register showed RVALID 0 with RAVAIL above 0 |
| `JtagUart.Uart.ReceiveOne` | pong/software/usb_kb_bsp/drivers/src/altera_avalon_jtag_uart_init.c:132-154 | a full ring stops before the device is read, so no byte is popped that cannot be stored |
| `JtagUart.Uart.StoreRx` | pong/software/usb_kb_bsp/drivers/src/altera_avalon_jtag_uart_init.c:149-150 | storing a popped byte keeps the receive ring equal to the taken and not yet returned stream |
| `JtagUart.Uart.Transmit` | pong/software/usb_kb_bsp/drivers/src/altera_avalon_jtag_uart_init.c:169-195 | sends exactly the smaller of what is published and the space read once, never overrunning the device FIFO; WE goes off exactly when the ring ran out first |
| `JtagUart.Uart.TransmitOne` | pong/software/usb_kb_bsp/drivers/src/altera_avalon_jtag_uart_init.c:174-184 | the oldest published byte goes to the device, once |
| `JtagUart.Uart.HostCheck` | pong/software/usb_kb_bsp/drivers/src/altera_avalon_jtag_uart_init.c:203-225 | host activity clears the idle count, and the activity bit unless it goes on; silence advances the count, saturating at INT_MAX - 2; the alarm comes again after a second |
| `JtagUart.Uart.Write` | pong/software/usb_kb_bsp/drivers/src/altera_avalon_jtag_uart_write.c:84-215 | under every interleaving with interrupt activations: the published stream grows by exactly the prefix of the data whose length is returned; the call stops short only after finding the ring full and, unless it may not block, only for an idle host, when there is room again or the idle count has reached the timeout during the call; error codes for a count of zero |
| `JtagUart.Uart.WriteRound` | pong/software/usb_kb_bsp/drivers/src/altera_avalon_jtag_uart_write.c:100-191 | one turn of the outer loop: what it publishes is the next part of the data, and WE is on when it ends |
| `JtagUart.Uart.Fill` | pong/software/usb_kb_bsp/drivers/src/altera_avalon_jtag_uart_write.c:103-127 | the inner loop publishes data until its end or until the ring was seen full |
| `JtagUart.Uart.FreeRun` | pong/software/usb_kb_bsp/drivers/src/altera_avalon_jtag_uart_write.c:106-117 | stale snapshots of the two indices are conservative: the computed space is still free, and a zero means the ring is full now |
| `JtagUart.Uart.StoreChunk` | pong/software/usb_kb_bsp/drivers/src/altera_avalon_jtag_uart_write.c:122 | the copy touches no live slot, whatever the interrupt side does meanwhile, and is intact when it ends |
| `JtagUart.Uart.PublishTx` | pong/software/usb_kb_bsp/drivers/src/altera_avalon_jtag_uart_write.c:126 | publishing the in index appends exactly the copied chunk to the stream |
| `JtagUart.Uart.EnableWe` | pong/software/usb_kb_bsp/drivers/src/altera_avalon_jtag_uart_write.c:136-139 | the kick restores the no-stranded-output invariant and keeps the device and driver enable bits equal |
| `JtagUart.Uart.AwaitRoom` | pong/software/usb_kb_bsp/drivers/src/altera_avalon_jtag_uart_write.c:183-184 | the wait keeps the invariant, ends only on a moved out index or an inactive host, and otherwise uses all its polls |
| `JtagUart.Uart.AwaitData` | pong/software/usb_kb_bsp/drivers/src/altera_avalon_jtag_uart_read.c:173-174 | the wait keeps the invariant, ends only on a moved in index or an inactive host, and otherwise uses all its polls |
| `JtagUart.Uart.Read` | pong/software/usb_kb_bsp/drivers/src/altera_avalon_jtag_uart_read.c:101-203 | under every interleaving: the buffer receives exactly the next bytes of the taken stream and nothing else of it changes; fewer than asked for only after all that had arrived before the call was returned; error codes for none, EIO only with the ring empty and if the idle count reached the timeout during the call |
| `JtagUart.Uart.ReadRound` | pong/software/usb_kb_bsp/drivers/src/altera_avalon_jtag_uart_read.c:115-179 | one turn of the outer loop: drain, then wait when there was nothing |
| `JtagUart.Uart.Drain` | pong/software/usb_kb_bsp/drivers/src/altera_avalon_jtag_uart_read.c:120-142 | copies contiguous live runs until the buffer is full or the ring was seen empty |
| `JtagUart.Uart.LiveRun` | pong/software/usb_kb_bsp/drivers/src/altera_avalon_jtag_uart_read.c:122-131 | a stale in index is conservative: every byte of the run is live |
| `JtagUart.Uart.CopyOut` | pong/software/usb_kb_bsp/drivers/src/altera_avalon_jtag_uart_read.c:136-140 | the copied bytes are the next of the stream although the interrupt side may append during the copy |
| `JtagUart.Uart.ConsumeRx` | pong/software/usb_kb_bsp/drivers/src/altera_avalon_jtag_uart_read.c:140 | giving slots back removes exactly the copied bytes from the live region |
| `JtagUart.Uart.EnableRe` | pong/software/usb_kb_bsp/drivers/src/altera_avalon_jtag_uart_read.c:188-195 | re-enabling restores the no-stranded-input invariant |
| `JtagUart.Uart.Close` | pong/software/usb_kb_bsp/drivers/src/altera_avalon_jtag_uart_init.c:241-254 | success means every published byte reached the device or the host counts as gone, and comes at once if nothing is left to send; EWOULDBLOCK only with data undelivered and the host present; while it waits with data left, WE is on and the host present |
| `AlarmTime.StartEncodes` | pong/software/usb_kb_bsp/HAL/src/alt_alarm_start.c:80-96 | time and rollover written by a start stand for the unbounded deadline now + n + 1, for every delay but the largest, and for that one with the counter at its last value |
| `AlarmTime.TickIsExact` | pong/software/usb_kb_bsp/HAL/src/alt_tick.c:109-115 | one tick: the 32-bit test succeeds exactly when the unbounded deadline is this tick, and otherwise the stamp still stands for it |
| `AlarmTime.ReloadEncodes` | pong/software/usb_kb_bsp/HAL/src/alt_tick.c:127-137 | reloading by any non-zero period moves the unbounded deadline by exactly that period, also for an alarm that its callback has started again |
| `AlarmTime.CallbacksFollowSchedule` | pong/software/usb_kb_bsp/HAL/src/alt_tick.c:96-141 | over any number of ticks and counter wraps the callbacks of a periodic alarm are those of the unbounded schedule |
| `AlarmTime.PeriodicAlarmIsExact` | pong/software/usb_kb_bsp/HAL/src/alt_alarm_start.c:80-98 | started at now with delay n and period p, callback k runs at now + n + 1 + k * p, for all k |
| `AlarmTime.StartIsExactIff` | pong/software/usb_kb_bsp/HAL/src/alt_alarm_start.c:82-96 | a start is on time if and only if the delay is not 2^32 - 1 or the counter is at its maximum; otherwise it expires on the very next tick |
| `AlarmList.Insert` | pong/software/usb_kb_bsp/HAL/inc/sys/alt_llist.h:90-98 | insertion makes the entry the first node of one well-formed circular doubly linked list |
| `AlarmList.Remove` | pong/software/usb_kb_bsp/HAL/inc/sys/alt_llist.h:105-117 | removal leaves the well-formed list without the entry, which is linked to itself; a second removal changes nothing |
| `AlarmList.TraversalEndsIff` | pong/software/usb_kb_bsp/HAL/src/alt_tick.c:100-102 | following next from a node reaches the head if and only if the node is registered, where a node that is not is linked to itself |
| `AlarmSchedule.ActionsShrinkTail` | pong/software/usb_kb_bsp/HAL/src/alt_tick.c:117 | whatever alarms a callback starts and stops, what is left of the traversal only loses the alarms it stops |
| `AlarmSchedule.ActionsKeepSuccessor` | pong/software/usb_kb_bsp/HAL/src/alt_tick.c:102-140 | the successor saved before a callback is still the next to visit after it, if the callback does not stop it |
| `AlarmSchedule.SuccessorStaysIff` | pong/software/usb_kb_bsp/HAL/src/alt_tick.c:102-140 | among the callbacks that do not start the saved successor again, those that leave it the next to visit are exactly those that do not stop it |
| `AlarmSchedule.VisitedAtMostOnce` | pong/software/usb_kb_bsp/HAL/src/alt_tick.c:100-141 | a tick visits no alarm twice, and none that was not registered when it began |
| `AlarmSchedule.VisitedUnlessStopped` | pong/software/usb_kb_bsp/HAL/src/alt_tick.c:100-141 | a tick visits every alarm registered when it began unless a callback that runs in this tick stops it |
| `AlarmSchedule.CalledWhenDue` | pong/software/usb_kb_bsp/HAL/src/alt_tick.c:115-117 | the callbacks of a tick are those of the visited alarms whose deadline has come, in list order |
| `AlarmSchedule.CalledOnTime` | pong/software/usb_kb_bsp/HAL/src/alt_tick.c:115-117 | if no deadline is past, every callback runs at its own deadline, and every alarm due now is called unless a callback that runs in this tick stops it |
| `AlarmClock.Clock.constructor` | pong/software/usb_kb_bsp/HAL/inc/sys/alt_llist.h:75 | an empty list: the head linked to itself, tick 0, no alarm registered |
| `AlarmClock.Clock.Start` | pong/software/usb_kb_bsp/HAL/src/alt_alarm_start.c:64-112 | refines the unbounded schedule: the alarm joins at the head of the list with deadline now + n + 1; ENOTSUP without a clock, EINVAL without an alarm |
| `AlarmClock.Clock.Stop` | pong/software/usb_kb_bsp/HAL/src/alt_tick.c:66-73 | refines removal from the schedule, also for an alarm that is not registered |
| `AlarmClock.Clock.Tick` | pong/software/usb_kb_bsp/HAL/src/alt_tick.c:87-148 | refines a whole tick: same visits, same callbacks at their deadlines, same schedule afterwards, for every list and every behaviour of the callbacks that spares the saved successor |
| `AlarmClock.Clock.CallbackSparesIff` | pong/software/usb_kb_bsp/HAL/src/alt_tick.c:102-140 | right after any callback that does not start the saved successor again, the links from that successor lead back to the head if and only if the callback did not stop it |
| `AlarmSchedule.TurnStaysOut` | pong/software/usb_kb_bsp/HAL/src/alt_tick.c:102-140 | after a turn of the loop a stopped alarm is registered if and only if its deadline has come and its callback leaves it registered, for which it has to start it, and asks for a period |
| `AlarmTime.HaltedTest` | pong/software/usb_kb_bsp/HAL/src/alt_tick.c:109-115 | however often the loop compares a stopped alarm within a tick, the 32-bit test succeeds exactly when its deadline is now |
| `AlarmClock.Clock.VisitStopped` | pong/software/usb_kb_bsp/HAL/src/alt_tick.c:102-140 | one turn of the loop at a stopped alarm: whatever its callback does, the same alarm is the next one; the links from it lead back to the head if and only if its deadline has come and its callback leaves it registered and asks for a period; if the callback does not start it, the next turn finds it stopped as before |
| `AlarmClock.Clock.TickGoesOn` | pong/software/usb_kb_bsp/HAL/src/alt_tick.c:100-141 | the tick does not end: after any number of turns at a stopped alarm whose callbacks, if they run, do not start it, the loop variable is still that alarm and not the head |
| `AlarmClock.EndlessTick` | pong/software/usb_kb_bsp/HAL/src/alt_tick.c:100-140 | a run from start-up whose tick never ends: two alarms are due, the callback of the first stops the second, which the loop has saved as the next, the callback of the second does nothing, and after any number of turns the loop is still at the second |
| `AlarmClock.Clock.Traverse` | pong/software/usb_kb_bsp/HAL/src/alt_tick.c:100-141 | the traversal of the linked list terminates and performs the unbounded walk |
| `AlarmClock.Clock.VisitOne` | pong/software/usb_kb_bsp/HAL/src/alt_tick.c:102-140 | one turn of the loop performs one visit of the schedule |
| `AlarmClock.Clock.Expire` | pong/software/usb_kb_bsp/HAL/src/alt_tick.c:109-115 | the flag is dropped on the wrap and the test is true exactly when the deadline is now |
| `AlarmClock.Clock.RunCallback` | pong/software/usb_kb_bsp/HAL/src/alt_tick.c:117 | a callback that starts and stops alarms performs the same actions on the schedule |
| `AlarmClock.Clock.Callback` | pong/software/usb_kb_bsp/HAL/src/alt_tick.c:117-138 | the callback and what its result asks for, on the list and on the schedule alike; no stamps change but those of its alarm and of the alarms it starts |
| `AlarmClock.Clock.Settle` | pong/software/usb_kb_bsp/HAL/src/alt_tick.c:121-138 | a zero result unregisters the alarm, another one moves its deadline by that period |
| `AlarmClock.Clock.BeginTick` | pong/software/usb_kb_bsp/HAL/src/alt_tick.c:96 | the counter wraps modulo 2^32 while the unbounded tick advances |
| `Spi.SpiCore.Status` | pong/lab62_soc/synthesis/submodules/lab62_soc_spi_0.v:326-409 | the core finishes a byte within its latency in polls; RRDY, TRDY and TMT show what it is doing |
| `Spi.SpiCore.Poll` | pong/software/usb_kb_bsp/drivers/src/altera_avalon_spi.c:82-87 | the poll loop ends with a reply exactly when the credit is out, and with room to send otherwise |
| `Spi.SpiCore.Send` | pong/software/usb_kb_bsp/drivers/src/altera_avalon_spi.c:89-102 | sends the next write byte, then zeros; the credit value -1024 arises only for a command that moves no byte |
| `Spi.SpiCore.Receive` | pong/software/usb_kb_bsp/drivers/src/altera_avalon_spi.c:104-116 | drops the reply to each write byte, stores the others in order, and ends exactly after the last |
| `Spi.SpiCore.Turn` | pong/software/usb_kb_bsp/drivers/src/altera_avalon_spi.c:79-118 | each turn keeps credits plus bytes outstanding at one, and sent and received counts with the four counters |
| `Spi.SpiCore.Transfer` | pong/software/usb_kb_bsp/drivers/src/altera_avalon_spi.c:78-125 | the loop terminates within a bound on polls exactly when there is a byte to move; wires carry write data then zeros |
| `Spi.SpiCore.Command` | pong/software/usb_kb_bsp/drivers/src/altera_avalon_spi.c:41-134 | complete contract of one command: chip select by the two flags, transmitted stream, received stream minus its first write_length bytes, and completion if and only if write_length + read_length is positive |
| `Max3421e.RegWr` | pong/software/usb_kb/usb_kb/MAX3421E.c:35-49 | one chip-select frame carrying reg + 2 and the value |
| `Max3421e.RegRd` | pong/software/usb_kb/usb_kb/MAX3421E.c:75-93 | one chip-select frame carrying reg and one slot, whose reply is the result |
| `Max3421e.BytesWr` | pong/software/usb_kb/usb_kb/MAX3421E.c:52-72 | one chip-select frame carrying reg + 2 and exactly the buffer; a count of zero still sends the byte before the buffer |
| `Max3421e.BytesRd` | pong/software/usb_kb/usb_kb/MAX3421E.c:96-113 | one chip-select frame with one slot a byte; replies stored in order, other memory unchanged; a count of zero overwrites the byte before the buffer |
| `TransferSpec.DeadlineIsExact` | pong/software/usb_kb/usb_kb/transfer.c:144-153 | while the 32-bit product does not wrap, the deadline shows exactly 5000 ticks after the start |
| `TransferSpec.DeadlineMissed` | pong/software/usb_kb/usb_kb/transfer.c:144-153 | if the product wraps first, the deadline stays out of reach for 4.2 million ticks |
| `TransferSpec.DeadlineReachedIff` | pong/software/usb_kb/usb_kb/transfer.c:144-153 | the timeout works if and only if the product plus five seconds stays below 2^32 |
| `TransferSpec.RetryBound` | pong/software/usb_kb/usb_kb/transfer.c:165-182 | at most 199 NAKs and 2 bus timeouts precede the last try |
| `TransferSpec.OneMore` | pong/software/usb_kb/usb_kb/transfer.c:209-217 | where the next packet is stored, and whether the transfer is complete with it |
| `TransferSpec.StoreAllIsJoined` | pong/software/usb_kb/usb_kb/transfer.c:211 | without empty packets memory holds the concatenation of the packets and is unchanged elsewhere |
| `TransferSpec.StrayByteStays` | pong/software/usb_kb/usb_kb/MAX3421E.c:102-107 | an empty packet overwrites the byte before its place, and later packets do not repair it |
| `TransferSpec.ReassemblyIsExactIff` | pong/software/usb_kb/usb_kb/transfer.c:199-226 | reassembly is exact, whatever the stray bytes, if and only if no packet is empty |
| `TransferSpec.UnfinishedAreFull` | pong/software/usb_kb/usb_kb/transfer.c:217 | while a transfer goes on every packet is full and the total is short of what was asked for |
| `TransferSpec.CompleteIsTight` | pong/software/usb_kb/usb_kb/transfer.c:217 | a complete transfer takes at least one packet, at most the number of full packets that hold nbytes, and overshoots by less than one packet |
| `TransferSpec.FullTransferEndsIff` | pong/software/usb_kb/usb_kb/transfer.c:213-217 | a transfer of full packets ends with the packet that reaches nbytes if and only if the 16-bit total has not wrapped there |
| `TransferSpec.TruncationIsHarmlessIff` | pong/software/usb_kb/usb_kb/transfer.c:191 | passing the packet size in a byte leaves the end of a transfer where the record puts it if and only if all packets but the last are full for the size of the record |
| `TransferSpec.LargeSizeNeedsOnePacket` | pong/software/usb_kb/usb_kb/transfer.c:114 | a record value of 256 or more survives the truncation exactly in transfers of one packet |
| `UsbTransfer.ReadFifo` | pong/software/usb_kb/usb_kb/MAX3421E.c:96-113 | the multi-byte read over SPI has exactly the effect on memory that the transfer engine takes it to have, stray byte included |
| `UsbTransfer.Host.Transact` | pong/software/usb_kb/usb_kb/transfer.c:164 | the controller and device of one transaction: both toggles move on a matched packet, which the receive FIFO then holds, only the device on a repeated one, none on NAK or timeout; the acknowledgement may be lost, and then the device does not move |
| `UsbTransfer.Host.Finish` | pong/software/usb_kb/usb_kb/transfer.c:150-162 | a transaction left in flight by a call completes before the next one, with its effect on both toggles, and leaves the transfer-done flag set |
| `UsbTransfer.Host.Look` | pong/software/usb_kb/usb_kb/transfer.c:153-164 | one turn of the poll loop: without the transfer-done flag nothing, with it the result of the transaction, or busy if the flag was left over |
| `UsbTransfer.Host.Attempt` | pong/software/usb_kb/usb_kb/transfer.c:151-164 | one launch and its poll loop: a completed result; 0xff once the clock shows the deadline, or busy when the flag was left over from an earlier transaction, both with the token still in flight and no toggle moved |
| `UsbTransfer.Host.Dispatch` | pong/software/usb_kb/usb_kb/transfer.c:142-186 | NAK is returned only after exactly 200 NAKs, a bus timeout only after exactly 3; all launches carry the token; toggles are as after the last try, and as before the call while the token is in flight; over within 5000 ticks while the clock product does not wrap |
| `UsbTransfer.Host.LaunchBound` | pong/software/usb_kb/usb_kb/transfer.c:150-184 | a token is launched at most 202 times |
| `UsbTransfer.Host.InPacket` | pong/software/usb_kb/usb_kb/transfer.c:200-212 | one IN packet: the packet stored is the one that arrived; 0xf0 exactly for one that arrived without RCVDAV; with any other code none arrived; what happened to both toggles in each case |
| `UsbTransfer.Host.TakePacket` | pong/software/usb_kb/usb_kb/transfer.c:200-226 | one turn of the packet loop: one more packet, the next to arrive, behind the others in memory, and the transfer is over exactly if it is complete |
| `UsbTransfer.Host.CollectPackets` | pong/software/usb_kb/usb_kb/transfer.c:197-226 | the packet loop: success exactly with a complete transfer, memory as the packets in order, which are all that arrived but one reported by 0xf0, every packet acknowledged once, the device moved on for each acknowledgement that was not lost |
| `UsbTransfer.Host.InTransfer` | pong/software/usb_kb/usb_kb/transfer.c:191-227 | success means a complete transfer with the packets that arrived stored in order and the toggle saved; a toggle in step before the call is in step when it returns if and only if it succeeded with no acknowledgement lost, or failed with an even number of device moves; out of step, if and only if the repeated packet was dropped; the token is in flight exactly after 0xff or busy, and any other failure is 0xf0 or the result of the last transaction |
| `UsbTransfer.Host.CtrlNoData` | pong/software/usb_kb/usb_kb/transfer.c:126-136 | the status stage goes in the direction opposite to the request, and its result is the result of the call |
| `UsbTransfer.Host.CtrlData` | pong/software/usb_kb/usb_kb/transfer.c:107-124 | an IN data stage starts at DATA1 and is followed by its status stage if and only if it is complete; a failure is the last transaction's own, or 0xf0; OUT data is refused with 0xff and nothing sent |
| `UsbTransfer.Host.SendSetup` | pong/software/usb_kb/usb_kb/transfer.c:86-102 | the address and the eight bytes are set before the setup token goes out; a failure is the last transaction's own |
| `UsbTransfer.Host.Stages` | pong/software/usb_kb/usb_kb/transfer.c:103 | the call through the table: without a buffer the status stage alone, with one the data stage first |
| `UsbTransfer.Host.SetupRoundTrip` | pong/software/usb_kb/usb_kb/transfer.c:92-98 | the eight setup bytes read back as the request, as section 9.3 of USB 2.0 lays them out |
| `UsbTransfer.Host.CtrlReq` | pong/software/usb_kb/usb_kb/transfer.c:77-105 | setup, data and status stages in order, each launched if and only if the one before succeeded, success only with all, and any failure is that of the last stage; the data are the packets that arrived; after a data stage the toggles agree if and only if no acknowledgement was lost, and only a lost one leads to a toggle error |
| `UsbTransfer.Host.Poll` | pong/software/usb_kb/usb_kb/HID.c:208-222 | a report poll, after what an earlier call left in flight has completed: toggles then agree exactly if they did before and the device has not moved, or did not and it has; what is stored is the packets that arrived; from toggles in step, with packets of eight bytes or more at most one packet, and in step at the end except exactly on success without a device move or failure with one (without lost acknowledgements: on 0xf0); from toggles out of step nothing is taken, and they are recovered exactly by a toggle error |
| `UsbTransfer.Host.OnePacketIsEnough` | pong/software/usb_kb/usb_kb/HID.c:211-212 | eight bytes in packets of eight or more are one packet |
| `UsbTask.LeastFree` | pong/software/usb_kb/usb_kb/transfer.c:338-339 | the address loop finds the least free slot from 1 to 7, or none |
| `UsbTask.LeastFreeIsNext` | pong/software/usb_kb/usb_kb/transfer.c:338-353 | after so many tries since the table was cleared the next address is the next number, none after seven |
| `UsbTask.AddressingKeepsOrder` | pong/software/usb_kb/usb_kb/transfer.c:337-360 | an addressing step reaches its milestone only after the descriptor, with an address not tried before |
| `UsbTask.StepKeepsOrderIff` | pong/software/usb_kb/usb_kb/MAX3421E.c:235-238 | a task call, an interrupt or a restart keeps the enumeration order if and only if it is not an increment out of state 0x1f, 0x2f or 0x3f |
| `UsbTask.InOrderAllAlongIff` | pong/software/usb_kb/usb_kb/MAX3421E.c:218-241 | a whole run is in order all along if and only if no increment in it fires in one of those three states |
| `UsbTask.StepStaysKnown` | pong/software/usb_kb/usb_kb/MAX3421E.c:198-241 | with the connection interrupt the only one enabled, a step is never a harmful increment and leads to one of fifteen known states, and the settle delay is armed exactly if the attaching interrupt carried no bus event |
| `UsbTask.ConnectedRun` | pong/software/usb_kb/usb_kb/MAX3421E.c:198-241 | the same for every run from power on, with the enumeration order kept |
| `UsbTask.RunningIsEarned` | pong/software/usb_kb/usb_kb/transfer.c:246-385 | on every run with the interrupts the program enables enumeration is in order all along, and RUNNING is entered only after, since the last attachment, a descriptor read, then a successful SetAddress, then a driver that accepted, on the address numbered by the tries since the table was cleared |
| `UsbTask.SettleServedIff` | pong/software/usb_kb/usb_kb/transfer.c:277-283 | on every such run the bus reset follows more than 200 ms after the attachment was noticed if and only if the attaching interrupt carried no bus event |
| `UsbTask.SettleSkipped` | pong/software/usb_kb/usb_kb/MAX3421E.c:231-238 | a run from power on without the settle time: the connection interrupt comes with a bus event, and the device is reset 1 ms after start |
| `UsbTask.DisconnectClearsIff` | pong/software/usb_kb/usb_kb/MAX3421E.c:231-238 | after a disconnection the next call of USB_Task clears the device table if and only if the interrupt carried no bus event |
| `UsbTask.TaskAdvances` | pong/software/usb_kb/usb_kb/transfer.c:274-375 | a call in mid-enumeration waits, advances by exactly one stage, or fails; waiting for a frame never waits because of the bitwise or |
| `UsbTask.EnumerationEnds` | pong/software/usb_kb/usb_kb/transfer.c:274-375 | without interrupts enumeration is over after at most eight calls that do not wait, running or failed |
| `UsbTask.FailsIff` | pong/software/usb_kb/usb_kb/transfer.c:304-375 | a call in mid-enumeration fails if and only if it does not wait and its stage gets a bad answer: an error code from a transfer, no address left of 1 to 7, or no driver; and which code and state are stored |
| `UsbTask.GoodAnswersNeverFail` | pong/software/usb_kb/usb_kb/transfer.c:274-375 | with good answers and a free address enumeration is never in the error state |
| `UsbTask.RunsOnGoodAnswers` | pong/software/usb_kb/usb_kb/transfer.c:274-375 | with good answers the device is running if and only if eight calls have not waited |
| `UsbTask.RunsFromPowerOn` | pong/software/usb_kb/usb_kb/transfer.c:246-385 | the same from power on, for a device of either speed that is connected then |
| `UsbTask.RunningReached` | pong/software/usb_kb/usb_kb/transfer.c:246-385 | a run from power on that reaches RUNNING: one call, and seven more once the settle time and the bus reset are over |
| `UsbTask.ProbeFollowsLines` | pong/software/usb_kb/usb_kb/MAX3421E.c:140-185 | one of J and K set means attached unless a reset is awaited, both set illegal, neither back to the start or waiting |
| `UsbTask.SettleIsExact` | pong/software/usb_kb/usb_kb/transfer.c:277-283 | within one turn of the millisecond clock a settle time that was armed is over at exactly the 201st tick |
| `UsbTask.Enumerator.Init` | pong/software/usb_kb/usb_kb/transfer.c:229-240 | the device table is cleared but for entry 0 |
| `UsbTask.Enumerator.Address` | pong/software/usb_kb/usb_kb/transfer.c:338-359 | the loop over the table performs the specified addressing step, error 0xfe included |
| `UsbTask.Enumerator.Configure` | pong/software/usb_kb/usb_kb/transfer.c:363-374 | the loop over the drivers performs the specified configuring step, error 0xfd included |
| `UsbTask.Enumerator.Attach` | pong/software/usb_kb/usb_kb/transfer.c:275-335 | the attached substates step as specified |
| `UsbTask.Enumerator.Task` | pong/software/usb_kb/usb_kb/transfer.c:246-386 | a call of USB_Task is one step of the specification |
| `UsbTask.Enumerator.BusProbe` | pong/software/usb_kb/usb_kb/MAX3421E.c:140-185 | line states lead to attached, illegal, cleared or waiting as specified |
| `UsbTask.Enumerator.Interrupt` | pong/software/usb_kb/usb_kb/MAX3421E.c:218-241 | the handler probes first and increments after, in one byte |
| `UsbTask.Enumerator.Restart` | pong/software/usb_kb/main.c:147-149 | the controller probe and the table are initialised together, at power on and after a disconnection |
| `HidProbe.SeekFindsFirst` | pong/software/usb_kb/usb_kb/HID.c:47-51 | on well-formed descriptors the skip loop ends at the first descriptor of the wanted type that begins before the walked length ends |
| `HidProbe.StuckIff` | pong/software/usb_kb/usb_kb/HID.c:47-51 | the skip loop never ends if and only if some number of skips leads to a descriptor of length 0, with none of the wanted type before or there |
| `HidProbe.ZerosAreEndless` | pong/software/usb_kb/usb_kb/HID.c:47-51 | a first read that gives a total length of 9 and zeros from the second read keep either probe walking for ever |
| `HidProbe.InterfaceIsExpected` | pong/software/usb_kb/usb_kb/HID.c:55-62 | class, subclass and protocol are read from fields 5 to 7 of the interface descriptor (section 9.6.5 of USB 2.0) |
| `HidProbe.EndpointIsExpected` | pong/software/usb_kb/usb_kb/HID.c:74-88 | the endpoint found is the first one behind the interface, and its fields are those of section 9.6.6 |
| `HidProbe.ParsedIsExpected` | pong/software/usb_kb/usb_kb/HID.c:41-110 | for every list of well-formed descriptors, whole or cut by the walked length anywhere but inside the fields a probe reads, the walk terminates and selects what the specification on the list selects |
| `HidProbe.ConfigurationIsExpected` | pong/software/usb_kb/usb_kb/HID.c:22-110 | against the device's own configuration: the second read asks for its wTotalLength, at most 256; what is selected is the first interface and endpoint of that much of it; the configuration set is its field 5 |
| `HidProbe.OneDriverOnly` | pong/software/usb_kb/usb_kb/HID.c:152-153 | a configuration that one driver selects is rejected by the other |
| `HidProbe.Drivers.Walk` | pong/software/usb_kb/usb_kb/HID.c:74-78 | the loop computes the walk, and goes on for ever if and only if some number of skips leads to a descriptor of length 0 first |
| `HidProbe.Drivers.Claim` | pong/software/usb_kb/usb_kb/HID.c:64-71 | the device entry is switched to the driver's records, the packet size passing through a byte |
| `HidProbe.Drivers.Copy` | pong/software/usb_kb/usb_kb/HID.c:81-88 | the endpoint fields are copied, toggles untouched |
| `HidProbe.Drivers.Select` | pong/software/usb_kb/usb_kb/HID.c:64-103 | the second half of a probe: claim, find the endpoint, configure, set the protocol |
| `HidProbe.Drivers.Examine` | pong/software/usb_kb/usb_kb/HID.c:41-111 | what a probe does with the configuration in its buffer, in each case of the walk |
| `HidProbe.Drivers.Probe` | pong/software/usb_kb/usb_kb/HID.c:19-111 | both probes: requests sent in order, result, and the whole effect of the probe itself on the device table in each case; a rejection writes nothing |
| `HidProbe.Drivers.ProbeBoth` | pong/software/usb_kb/usb_kb/transfer.c:363-369 | asked in turn, a boot mouse or keyboard is claimed by its own driver only, as if the other had not been asked |
| `FdPool.OpenTouchesFirstFree` | pong/software/usb_kb_bsp/HAL/src/alt_get_fd.c:77-89 | an open takes the first free entry, never 0 to 2, raises the mark to it, and touches no other entry |
| `FdPool.OpenRefusedIff` | pong/software/usb_kb_bsp/HAL/src/alt_open.c:64-92 | with the inclusive bound an open is refused with EACCES if and only if an entry was free and some descriptor holds the lock on the device |
| `FdPool.StepKeeps` | pong/software/usb_kb_bsp/HAL/src/alt_open.c:105-171 | every call keeps the invariant: the mark bounds all open descriptors, at most one lock holder a device, and nothing joins the device of a held lock |
| `FdPool.AlwaysOneHolder` | pong/software/usb_kb_bsp/HAL/src/alt_fd_lock.c:54-75 | over every run from start-up no device ever has two lock holders, although a lock may be granted beside an undetected sharer |
| `FdPool.NoneJoinsWhileHeld` | pong/software/usb_kb_bsp/HAL/src/alt_open.c:143 | while a lock is held no sequence of calls adds a descriptor on its device |
| `FdPool.GrantIsExclusiveIff` | pong/software/usb_kb_bsp/HAL/src/alt_fd_lock.c:61 | a granted lock is exclusive if and only if the descriptor at the mark is not another one on the device |
| `FdPool.ExclusiveWhileHeld` | pong/software/usb_kb_bsp/HAL/src/alt_fd_lock.c:54-75 | a lock granted with nobody else at the mark stays exclusive on every run while it is held |
| `FdPool.SharedLock` | pong/software/usb_kb_bsp/HAL/src/alt_fd_lock.c:61 | opening a device twice and locking the first descriptor is granted while the second still shares it |
| `FdPool.OpenThenClose` | pong/software/usb_kb_bsp/HAL/src/alt_close.c:64-101 | closing what was just opened, and a failed open, leave the pool as it was but for the mark |
| `FdPool.LockEnds` | pong/software/usb_kb_bsp/HAL/src/alt_fd_unlock.c:52-56 | an unlock, or a close above 2, of the holder ends the lock: nobody holds the device, opening it is not refused for a lock, other descriptors are as before |
| `FdPool.HoldersChangeOnly` | pong/software/usb_kb_bsp/HAL/src/alt_ioctl.c:106-168 | no call but a lock makes a descriptor a holder, and none but an unlock, a close or a redirection of it ends that |
| `FdPool.CloseAnswers` | pong/software/usb_kb_bsp/HAL/src/alt_close.c:64-101 | a failing close of the driver is what the call returns, and the descriptor is free all the same |
| `FdPool.RedirectTakesOver` | pong/software/usb_kb_bsp/HAL/src/alt_io_redirect.c:57-72 | a redirected standard descriptor is the entry that the open made, which is free again; a failed one leaves the pool alone |
| `FdPool.Pool.constructor` | pong/software/usb_kb_bsp/HAL/src/alt_dev.c:118-149 | initial pool: standard descriptors on the null device, mark -1 |
| `FdPool.Pool.GetFd` | pong/software/usb_kb_bsp/HAL/src/alt_get_fd.c:54-101 | first free entry or EMFILE |
| `FdPool.Pool.ReleaseFd` | pong/software/usb_kb_bsp/HAL/src/alt_release_fd.c:44-51 | clears entries above 2 only |
| `FdPool.Pool.FileLocked` | pong/software/usb_kb_bsp/HAL/src/alt_open.c:64-92 | with an entry open, marks the entry as a device and reports a lock held elsewhere up to and including the mark |
| `FdPool.Pool.Open` | pong/software/usb_kb_bsp/HAL/src/alt_open.c:105-171 | performs the specified open, errno included |
| `FdPool.Pool.Close` | pong/software/usb_kb_bsp/HAL/src/alt_close.c:64-101 | performs the specified close, errno included |
| `FdPool.Pool.FdLock` | pong/software/usb_kb_bsp/HAL/src/alt_fd_lock.c:54-75 | performs the specified lock |
| `FdPool.Pool.FdUnlock` | pong/software/usb_kb_bsp/HAL/src/alt_fd_unlock.c:52-56 | clears the lock flag of one entry only |
| `FdPool.Pool.Ioctl` | pong/software/usb_kb_bsp/HAL/src/alt_ioctl.c:106-168 | lock and unlock for devices, the driver for everything else, errno included |
| `FdPool.Pool.Redirect` | pong/software/usb_kb_bsp/HAL/src/alt_io_redirect.c:57-72 | a standard descriptor takes over a freshly opened entry, which is released |
| `WallClock.TickArithmeticIsExactIff` | pong/software/usb_kb_bsp/HAL/src/alt_gettod.c:91-93 | seconds and microseconds of the ticks are those of a clock for every tick if and only if the rate divides a million |
| `WallClock.SecondsAddUp` | pong/software/usb_kb_bsp/HAL/src/alt_settod.c:82 | through both calls the 32-bit seconds lose nothing to wrap-around |
| `WallClock.NormalisedIs` | pong/software/usb_kb_bsp/HAL/src/alt_gettod.c:95-112 | the two loops give the normal form of the same time, and the clamp only a time before the epoch |
| `WallClock.SetThenGet` | pong/software/usb_kb_bsp/HAL/src/alt_gettod.c:89-112 | a time set at n0 reads at n1 as set plus elapsed plus one constant error, that of the 32-bit product at n0 |
| `WallClock.SetErrorIsZeroIff` | pong/software/usb_kb_bsp/HAL/src/alt_settod.c:83-84 | the 32-bit product loses nothing if and only if its number of wraps is a multiple of 15625 |
| `WallClock.ClockLawIff` | pong/software/usb_kb_bsp/HAL/src/alt_settod.c:80-84 | the wall-clock law holds if and only if that is so (or the epoch itself is read at once with a negative error) |
| `WallClock.ClockLaw` | pong/software/usb_kb_bsp/HAL/src/alt_settod.c:80-84 | while the 32-bit product does not overflow the law holds at every later tick, in normal form |
| `WallClock.ClockLawFails` | pong/software/usb_kb_bsp/HAL/src/alt_settod.c:83-84 | at 1000 ticks a second the law fails seventy-two minutes after start-up |
| `WallClock.Clock.SetTimeOfDay` | pong/software/usb_kb_bsp/HAL/src/alt_settod.c:72-96 | stores the reset time and the zone, or ENOSYS in errno without a clock |
| `WallClock.Clock.GetTimeOfDay` | pong/software/usb_kb_bsp/HAL/src/alt_gettod.c:71-124 | reads the time and the zone, or returns ENOTSUP without a clock |
| `WallClock.Clock.Normalise` | pong/software/usb_kb_bsp/HAL/src/alt_gettod.c:95-112 | the two loops compute the borrow and the carry |
| `LogPrintf.NumeralDenotes` | pong/software/usb_kb_bsp/HAL/src/alt_log_printf.c:281-296 | the numeral denotes the number: parsing inverts printing, in every base and case |
| `LogPrintf.NumeralIsShortest` | pong/software/usb_kb_bsp/HAL/src/alt_log_printf.c:247-255 | no numeral of the same number is shorter |
| `LogPrintf.FirstIsDigit` | pong/software/usb_kb_bsp/HAL/src/alt_log_printf.c:281-296 | no leading zero but for zero itself |
| `LogPrintf.MagnitudeIsValue` | pong/software/usb_kb_bsp/HAL/src/alt_log_printf.c:238-245 | sign and two's complement magnitude make up the value, the least integer included |
| `LogPrintf.PrintedReadsBack` | pong/software/usb_kb_bsp/HAL/src/alt_log_printf.c:206-297 | what is printed reads back as the argument, for every 32-bit argument, base, width and padding |
| `LogPrintf.PrintedWidth` | pong/software/usb_kb_bsp/HAL/src/alt_log_printf.c:257-279 | the text is as wide as asked for, or as digits and sign need |
| `LogPrintf.FilledAsAsked` | pong/software/usb_kb_bsp/HAL/src/alt_log_printf.c:256-279 | the width is filled with zeros behind the sign if the format asks for them, with blanks before the sign otherwise |
| `LogPrintf.DigitsOnly` | pong/software/usb_kb_bsp/HAL/src/alt_log_printf.c:282-298 | a numeral consists of digits, those above 9 in the case asked for |
| `LogPrintf.PaddedFromTop` | pong/software/usb_kb_bsp/HAL/src/alt_log_printf.c:286-295 | the quotient by the place value is the top digit, and the remainder carries the rest |
| `LogPrintf.Log.RepChar` | pong/software/usb_kb_bsp/HAL/src/alt_log_printf.c:106-110 | so many copies, none for a count of zero or less |
| `LogPrintf.Log.CountDigits` | pong/software/usb_kb_bsp/HAL/src/alt_log_printf.c:247-255 | the digit count is the length of the numeral and p is the base to that length less one, without 32-bit overflow |
| `LogPrintf.Log.PlaceFits` | pong/software/usb_kb_bsp/HAL/src/alt_log_printf.c:251-255 | while digits remain, the next place value is at most the number |
| `LogPrintf.Log.EmitDigits` | pong/software/usb_kb_bsp/HAL/src/alt_log_printf.c:282-296 | the loop emits exactly the digits of the number, from the top |
| `LogPrintf.Log.PrintLead` | pong/software/usb_kb_bsp/HAL/src/alt_log_printf.c:257-279 | sign before zeros, blanks before sign |
| `LogPrintf.Log.StripSign` | pong/software/usb_kb_bsp/HAL/src/alt_log_printf.c:238-245 | the magnitude and the sign of the argument |
| `LogPrintf.Log.PrintInteger` | pong/software/usb_kb_bsp/HAL/src/alt_log_printf.c:206-297 | emits the specified text |
| `GameLogic.ColumnsStayIff` | pong/Game_Logic.sv:62-65 | a frame edge keeps the columns on the board if and only if the 7-bit motion fits them |
| `GameLogic.StepKeepsGood` | pong/Game_Logic.sv:35-149 | every event keeps columns, rows and counters in range, and the blocks' column offsets |
| `GameLogic.BlocksStayOnBoard` | pong/Game_Logic.sv:53-66 | on every run with a Clk edge between frame edges all columns stay in 0 to 11, all rows below 18, and the column offsets never change |
| `GameLogic.OnBoardAllAlongIff` | pong/Game_Logic.sv:53-66 | on a run all columns are on the board all along if and only if the motion fits them at every frame edge |
| `GameLogic.BoardOnlyFills` | pong/Game_Logic.sv:94-97 | set cells stay set on every run, resets included |
| `GameLogic.DownwardStep` | pong/Game_Logic.sv:112-117 | a move that does not lock takes each block one row down into a free cell and leaves the board alone |
| `GameLogic.LockStep` | pong/Game_Logic.sv:92-110 | a lock sets exactly the piece's four cells, in the columns after this frame, and starts the next piece at the top |
| `GameLogic.LocksIff` | pong/Game_Logic.sv:87-92 | a piece locks if and only if a cell below it is set or a block is in row 17 |
| `GameLogic.FallIsBounded` | pong/Game_Logic.sv:86-117 | without a lock the lowest row plus the moves stays below 18 |
| `GameLogic.LockWithinEighteen` | pong/Game_Logic.sv:86-117 | some piece locks within any 18 move clocks, on every run |
| `GameLogic.OneMoveEveryFifteen` | pong/Game_Logic.sv:35-51 | the number of move clocks is the number of frames, from the current count on, divided by fifteen |
| `GameLogic.LeavesBoardWithoutClk` | pong/Game_Logic.sv:120-128 | without a Clk edge in between two frames take a block from column 1 to column 63 |
| `GameLogic.Game.SetCell` | pong/Game_Logic.sv:94-97 | one board cell is set, a write outside the board having no effect |
| `GameLogic.Game.IsBlocked` | pong/Game_Logic.sv:87-91 | the four-block collision test |
| `GameLogic.Game.MoveY` | pong/Game_Logic.sv:68-118 | lock or move, as specified |
| `GameLogic.Game.FrameEdge` | pong/Game_Logic.sv:35-66 | divider and columns on a frame edge, then the move-clock edge it may cause |
| `GameLogic.Game.InputEdge` | pong/Game_Logic.sv:120-149 | the motions computed from key and columns |
| `GameLogic.KeyMoves` | pong/Game_Logic.sv:120-149 | after key 0x04 the next frame moves every block one column left unless one is in column 0, after 0x07 one column right unless one is in column 11, and after any other key none |
| `GameLogic.NothingElseMoves` | pong/Game_Logic.sv:35-118 | columns change only on frame edges, rows, board, colour and piece only with a move clock, and reset follows its edges and holds the frame count at 0 |
| `GameLogic.Game.ResetEdge` | pong/Game_Logic.sv:35-37 | the rising edge of reset clears the frame count and computes the motions |

## Left out

- JtagUart.Uart.Write: the call blocks for as long as the host neither fetches data nor goes idle, so it is followed for a budget of polls; uC/OS-II semaphores and event flags are not built in this configuration.
- JtagUart.Uart.Read: followed for a budget of polls, like write.
- AlarmClock.Clock.Start: the delay 2^32 - 1 is excluded unless the counter is at its last value, because its stamp stands for no deadline; `AlarmTime.StartIsExactIff` says that the alarm then expires on the next tick.
- AlarmClock.Clock.Tick: the callbacks spare the saved successor. What the loop does after one that does not is the subject of `AlarmClock.Clock.VisitStopped` up to the turn in which the stopped alarm is started again; the second pass over the list that follows is not modelled. An alarm that its callback starts again and reloads has its next deadline within one turn of the counter. A callback's other effects and the operating system's tick hook are not modelled.
- Spi.SpiCore.Command: the slave select register, transmit and receive overrun and the interrupt enables of the core are not modelled; a poll costs at most a fixed latency, which is the fairness of the core.
- UsbTransfer.Host.Transact: the receive FIFO holds the packet accepted last; that the controller has a second buffer, and may show an older packet that nobody has read first, is not modelled. At most one tick passes in a poll of the flag.
- UsbTransfer.Host.Finish: a transaction in flight when a call returns is taken to complete before the next call writes a register.
- UsbTransfer.Host.ReadPacket: has the effect that `UsbTransfer.ReadFifo` is proved to have, but does not call it, because the engine's memory is not one array.
- UsbTransfer.Host.CtrlReq: endpoint records are those of one addressed device; the device table is the subject of `HidProbe` and `UsbTask`.
- UsbTask.Enumerator.Task: the full descriptor and the string descriptors, whose results the code ignores, and the register writes for bus reset and frame generation are left out; probes are answers here and code in `HidProbe`.
- HidProbe.Drivers.Probe: the control reads before the walk also write the receive toggle of endpoint 0 (`transfer.c:114`, `UsbTransfer.Host.CtrlData`), in the record that both drivers share; results of the reads are parameters here. The loops are followed for at least 256 rounds, which are enough for every walk that ends; the bytes read past the 256-byte buffer are arbitrary but do not change during the walk.
- HidProbe.ParsedIsExpected: stated for lists of descriptors of at least two bytes, interfaces of nine and endpoints of seven; when the buffer ends inside the fields of a sought descriptor, the code reads what follows the buffer.
- FdPool.Pool.Open: name lookup and the drivers' own open, close and ioctl functions are parameters; the private pointer of an entry, the semaphore and a name registered both as device and file system are left out.
- WallClock.ClockLawIff: ticks are taken before the counter wraps and sums within a signed 32-bit second; `sys/time.h` is not part of this model.
- LogPrintf.Log.PrintInteger: the format state machine, variable arguments, strings, characters and the wait for the device are left out; widths are unbounded integers.
- GameLogic.BlocksStayOnBoard: the initial columns are arbitrary in 0 to 11, because nothing in the module initialises them.
- GameLogic.FrameStep: undefined values on out-of-range reads, possible only after the blocks have left the board, read as free cells.
- The small polled UART driver, the display modules, register access macros, interrupt entry, the cache, and stub system calls: hardware boundary or single-branch code.
- The USB driver's debug output, the LED and hex display code and the endless loop of `main.c`: user interface.
