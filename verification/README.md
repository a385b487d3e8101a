# Keyboard BSP: drivers and HAL services, modelled and proved

This project models the Nios II board support package under `software/keyboard_bsp` and the
player's character of the game (`Character.sv`), and proves what they promise. The model follows
the code branch by branch. Shared-memory concurrency is a labelled transition system; code that
updates objects in place is a class whose methods are proved against that system or against a
function of the old state; arithmetic is written out in 32 bits (10 bits for the character).

| file | what it models |
|---|---|
| `Common.dfy` | what several components share |
| `RingBuffer.dfy` | index arithmetic of the two circular buffers |
| `UartProtocol.dfy` | the JTAG UART fast driver as a protocol: one label is one access to shared memory or to the device; its invariant |
| `UartTheorems.dfy` | what the protocol guarantees of every run and of every call |
| `UartDriver.dfy` | the driver's own loops, as a class; every shared access is tied to one protocol label |
| `LinkedList.dfy` | the intrusive circular list, on nodes that are updated in place |
| `AlarmTime.dfy` | deadlines in a wrapping 32-bit counter with a rollover flag |
| `AlarmHistory.dfy` | histories of alarms, and what the events of one tick make of the list |
| `AlarmClock.dfy` | the scheduler: the tick's walk of the list while callbacks start and stop alarms |
| `FdPool.dfy`, `FdTable.dfy` | the file-descriptor pool and exclusive lock: as functions on a value, with theorems over call sequences; and as a class over an array |
| `IntegerPrint.dfy`, `Printf.dfy` | the two integer printers and the two format interpreters |
| `TimeOfDay.dfy` | setting and reading the time of day |
| `IrqNesting.dfy` | nested interrupt routines and the priority mask |
| `Heap.dfy`, `CallGraph.dfy` | sbrk, and the profiler's records carved from its blocks |
| `Character.dfy` | the character's clocked registers and next-state logic |

Assumptions about the hardware, stated as guards of protocol labels: RI implies that receive
interrupts are enabled at the device and its FIFO is not empty; WI implies that transmit interrupts
are enabled and there is transmit space; a DATA read of an empty FIFO reports RVALID = 0 and
RAVAIL = 0. Threads and the timeout alarm run only while the interrupt routine does not (one CPU).

Inputs from outside are parameters: results of driver callbacks, of name lookup, key and collision
signals, tick counts. What a callback does, when interrupts come and what the device does in between
are non-deterministic choices inside the methods.

## Where the code falls short of what is documented or intended

* `alt_fd_lock.c:43-45` promises that a sole user is granted the lock. It is, but others may be
  too: the scan at line 61 stops below `alt_max_fd`. `FdPool.GrantIsSoleUse` says exactly when a
  grant means sole use, and `FdPool.GrantWhileShared` is a call sequence where it does not. The
  lock's own promise, that later opens fail, holds (`FdPool.LockExcludes`).
* `alt_fd_lock.c:47` says that close releases a lock; for descriptors 0 to 2 `alt_release_fd.c:46`
  keeps it. `FdPool.LockOutlivesClose` is a call sequence that shows it, and `FdPool.HeldStep` says
  exactly which calls end a lock: an unlock of the descriptor, a close of it if it is above 2, and
  a redirection onto it that succeeds.
* `alt_settod.c:61-63` promises that an immediate gettimeofday returns the time set. The product at
  line 84 is 32 bits wide and the one at `alt_gettod.c:93` is 64; `TimeOfDay.ReportedExact` says
  exactly when the promise holds and `TimeOfDay.SetReadsBackWrong` gives a time, a tick count and a
  rate where it does not.
* A delay of 2^32 - 1 passes the comparison at `alt_alarm_start.c:89` unnoticed;
  `AlarmTime.StartFiresOnSchedule` says exactly when an alarm goes off on time and
  `AlarmTime.FiresEarly` what happens otherwise.
* `alt_legacy_irq.h:75-76` and `:93-94` write the whole active set to IENABLE, whatever the priority
  mask, and no comment says where they may be called. `IrqNesting.EnableInsideSection` says exactly
  where no later run can break the nesting of interrupts, and `IrqNesting.EnableBreaksNesting` is a
  run in which interrupt 5 preempts routine 3.
* On reset the character keeps a position whose interrupted move leaves the screen
  (`Character.sv:86-89`); `Character.ResetPlaces` says exactly when a reset places it, and
  `Character.ResetLeavesAtEdge` is a run in which it does not.
* Stopping the alarm after the one whose callback runs leaves the tick's walk with a node linked to
  itself (`alt_tick.c:102`, `alt_llist.h:115-116`). `AlarmClock.StopTheSuccessor` reaches such a
  walk from startup. `AlarmClock.Clock.SuccessorReachesHead` says that from the saved successor the
  head can be reached, over links that do not change on the way, if and only if the successor is
  registered; and `AlarmClock.Clock.Tick` terminates whenever every callback leaves it registered,
  be it that it has stopped it and started it again.
* `alt_fcntl.c:78-92` sets flags of a descriptor that is not in use. So free slots carry no flags,
  and a failed open leaves every slot as it was, only while nobody does that: `FdPool.CleanStep` and
  `FdPool.OpenFails` are exact, and `FdPool.ClosedDescriptorKeepsFlags` is a call sequence.
* `alt_gettod.c:91-93` keeps time only at rates that divide a million: `TimeOfDay.RateMustDivide`.
* A move past the bottom row is dropped (`Character.sv:88-89`), so a fall from rest lands only from
  heights k * (k - 1); from any other it hangs until its speed has wrapped and never lands:
  `Character.FallLands`.

## Model

| member | source | states |
|---|---|---|
| `RingBuffer.WriteRun` | software/keyboard_bsp/drivers/src/altera_avalon_jtag_uart_write.c:109-114 | the one-segment copy fits the free cells and the array, and is empty exactly when the ring is full |
| `RingBuffer.ReadRun` | software/keyboard_bsp/drivers/src/altera_avalon_jtag_uart_read.c:125-128 | the segment read holds only queued bytes, and is empty exactly when the ring is |
| `RingBuffer.Extend` | software/keyboard_bsp/drivers/src/altera_avalon_jtag_uart_write.c:122-126 | storing the advanced write index appends exactly the cells filled |
| `RingBuffer.Release` | software/keyboard_bsp/drivers/src/altera_avalon_jtag_uart_init.c:174-184 | advancing the read index takes exactly those elements off the front |
| `UartProtocol.StepKeepsInv` | software/keyboard_bsp/drivers/src/altera_avalon_jtag_uart_init.c:117-225 | every step of writer, reader, interrupt routine, timeout and device keeps the invariant: both streams intact, copies in progress outside the live part of a ring, no lost wake-up, enable bits in agreement |
| `UartProtocol.WriterKeepsTxInv` | software/keyboard_bsp/drivers/src/altera_avalon_jtag_uart_write.c:100-191 | with a stale snapshot of tx_out, each of the writer's steps keeps the transmit stream, and a stored tx_in is owed a kick until WE is set |
| `UartProtocol.ReaderKeepsRxInv` | software/keyboard_bsp/drivers/src/altera_avalon_jtag_uart_read.c:115-195 | each of the reader's steps keeps the receive stream and what the call has established |
| `UartProtocol.ReaderKeepsDebt` | software/keyboard_bsp/drivers/src/altera_avalon_jtag_uart_read.c:140-195 | a reader that moved rx_out owes the device the RE bit until it sets it |
| `UartProtocol.IsrKeepsInv` | software/keyboard_bsp/drivers/src/altera_avalon_jtag_uart_init.c:117-196 | each step of the interrupt routine keeps the invariant; a popped byte always has a free cell and a pushed byte is never dropped |
| `UartTheorems.EveryRunIsSafe` | software/keyboard_bsp/drivers/src/altera_avalon_jtag_uart_init.c:66-197 | over every interleaving from initialisation: accepted = sent + transmit ring; arrived = delivered + receive ring + FIFO; WE is set while bytes are queued and RE while the ring is not full, except between an index store and its kick; device enables equal irq_enable outside the routine |
| `UartTheorems.StepRefinesTxQueue` | software/keyboard_bsp/drivers/src/altera_avalon_jtag_uart_init.c:174-184 | the transmit side refines an unbounded FIFO: each step leaves it alone, or appends (the writer only), or moves one byte off its front (the interrupt routine only) |
| `UartTheorems.StepRefinesRxQueue` | software/keyboard_bsp/drivers/src/altera_avalon_jtag_uart_init.c:132-154 | the receive side refines an unbounded FIFO: the interrupt routine appends exactly the byte it pops, only the reader takes bytes off |
| `UartTheorems.WriteResult` | software/keyboard_bsp/drivers/src/altera_avalon_jtag_uart_write.c:100-214 | a finished write with result k > 0 put exactly the first k bytes in the stream, after all earlier ones; otherwise none; k is short only in non-blocking mode or if host_inactive was non-zero during the call, and only if the ring was full, during the call, with exactly those k bytes taken |
| `UartTheorems.ReadResult` | software/keyboard_bsp/drivers/src/altera_avalon_jtag_uart_read.c:115-202 | a finished read delivered the next bytes of the arrived stream, its result is their number or the error for none; it delivered fewer than there was room for only if the ring was empty, during the call, with exactly those taken |
| `UartTheorems.ReadFailsOnlyOnTimeout` | software/keyboard_bsp/drivers/src/altera_avalon_jtag_uart_read.c:172-178 | a blocking read with room gives up only if no byte entered the ring since the call and host_inactive reached the timeout during it |
| `UartTheorems.WriteWaits` | software/keyboard_bsp/drivers/src/altera_avalon_jtag_uart_write.c:183-188 | a look at tx_out ends the wait exactly if the ring is no longer full, a look at the host exactly if it has timed out; then the call gives up exactly if host_inactive is not zero and copies again otherwise |
| `UartTheorems.ReadWaits` | software/keyboard_bsp/drivers/src/altera_avalon_jtag_uart_read.c:172-178 | a look at rx_in ends the wait exactly if there is a byte in the ring, a look at the host exactly if it has timed out; then the call copies exactly if there is a byte and fails otherwise |
| `UartTheorems.SpaceIsTaken` | software/keyboard_bsp/drivers/src/altera_avalon_jtag_uart_write.c:100-191 | over every interleaving in which the host stays active, a blocking write with data left and room for it accepts more within a bounded number of its own steps, from wherever it is |
| `UartTheorems.GoneHostEndsWrite` | software/keyboard_bsp/drivers/src/altera_avalon_jtag_uart_write.c:183-188 | over every interleaving in which the host stays timed out, a waiting write returns what it has accepted within three steps of its own |
| `UartTheorems.ReadReturns` | software/keyboard_bsp/drivers/src/altera_avalon_jtag_uart_read.c:115-202 | over every interleaving, a read returns at least a byte once there is one in the ring, and returns anyway once the host stays timed out, within 3 * space + 5 steps of its own |
| `UartTheorems.PassReducesWork` | software/keyboard_bsp/drivers/src/altera_avalon_jtag_uart_init.c:117-196 | without new arrivals, every pass of the outer loop that does not exit strictly reduces unread bytes + queued bytes + set enable bits |
| `UartTheorems.PassExact` | software/keyboard_bsp/drivers/src/altera_avalon_jtag_uart_init.c:117-196 | what a pass does while no byte arrives: with RI it moves as many bytes from the device to the ring as fit and clears RE exactly if some are left; with WI it sends as many queued bytes as the device had room for and clears WE exactly if there was room for more |
| `UartDriver.JtagUart.constructor` | software/keyboard_bsp/drivers/src/altera_avalon_jtag_uart_init.c:66-100 | initialisation leaves the protocol's initial state |
| `UartDriver.JtagUart.Write` | software/keyboard_bsp/drivers/src/altera_avalon_jtag_uart_write.c:83-215 | the loop itself, preempted between any two shared accesses: result, accepted bytes and the only reasons for a short count; a call that still waits found tx_out unmoved and the host below its timeout at every turn of its last wait |
| `UartDriver.JtagUart.FillRing` | software/keyboard_bsp/drivers/src/altera_avalon_jtag_uart_write.c:103-127 | the copy loop follows the protocol: it ends with the data taken or the ring found full at the last snapshot |
| `UartDriver.JtagUart.AwaitSpace` | software/keyboard_bsp/drivers/src/altera_avalon_jtag_uart_write.c:183-188 | the busy wait and the test of host_inactive follow the protocol; while it goes on, every turn saw tx_out unmoved and the host below its timeout |
| `UartDriver.JtagUart.PollSpace` | software/keyboard_bsp/drivers/src/altera_avalon_jtag_uart_write.c:183-183 | the wait is over exactly if tx_out differs from the snapshot |
| `UartDriver.JtagUart.HostGone` | software/keyboard_bsp/drivers/src/altera_avalon_jtag_uart_write.c:187-188 | the call gives up exactly if host_inactive is not zero |
| `UartDriver.JtagUart.KickTransmit` | software/keyboard_bsp/drivers/src/altera_avalon_jtag_uart_write.c:136-149 | the read-modify-write of irq_enable with interrupts off is one protocol step |
| `UartDriver.JtagUart.Read` | software/keyboard_bsp/drivers/src/altera_avalon_jtag_uart_read.c:100-203 | the loop itself, preempted between any two shared accesses: result, delivered bytes, the only reason for -EIO and the only one for a short count; a call that still waits found rx_in unmoved and the host below its timeout at every turn of its last wait |
| `UartDriver.JtagUart.DrainRing` | software/keyboard_bsp/drivers/src/altera_avalon_jtag_uart_read.c:120-150 | the copy loop follows the protocol: bytes taken, or the ring found empty at the last snapshot |
| `UartDriver.JtagUart.AwaitByte` | software/keyboard_bsp/drivers/src/altera_avalon_jtag_uart_read.c:173-178 | the busy wait follows the protocol; while it goes on, every turn saw rx_in unmoved and the host below its timeout; it gives up exactly if the ring is empty then |
| `UartDriver.JtagUart.PollByte` | software/keyboard_bsp/drivers/src/altera_avalon_jtag_uart_read.c:173-173 | the wait is over exactly if there is a byte in the ring |
| `UartDriver.JtagUart.Irq` | software/keyboard_bsp/drivers/src/altera_avalon_jtag_uart_init.c:105-197 | the interrupt routine follows the protocol, leaves both threads' progress alone, and terminates whenever finitely many bytes arrive |
| `UartDriver.JtagUart.IrqPass` | software/keyboard_bsp/drivers/src/altera_avalon_jtag_uart_init.c:117-196 | a pass that does not exit leaves strictly less work |
| `UartDriver.JtagUart.IrqReceive` | software/keyboard_bsp/drivers/src/altera_avalon_jtag_uart_init.c:125-167 | the receive half follows the protocol and keeps the pass's progress |
| `UartDriver.JtagUart.IrqTransmit` | software/keyboard_bsp/drivers/src/altera_avalon_jtag_uart_init.c:169-195 | the transmit half follows the protocol and keeps the pass's progress |
| `UartDriver.JtagUart.TimeoutAlarm` | software/keyboard_bsp/drivers/src/altera_avalon_jtag_uart_init.c:203-225 | host_inactive counts the alarms since the host was last active, saturating; activity is acknowledged and the enables written again |
| `UartDriver.JtagUart.Close` | software/keyboard_bsp/drivers/src/altera_avalon_jtag_uart_init.c:241-254 | success means every accepted byte has been sent, or the host is inactive; any other answer means that bytes were queued at the call and the host is active, and is -EWOULDBLOCK exactly in non-blocking mode |
| `LinkedList.MutuallyInverse` | software/keyboard_bsp/HAL/inc/sys/alt_llist.h:64-75 | on a ring, next and previous are mutually inverse and do not leave it |
| `LinkedList.Insert` | software/keyboard_bsp/HAL/inc/sys/alt_llist.h:90-98 | insert is prepend, on the pointers |
| `LinkedList.Remove` | software/keyboard_bsp/HAL/inc/sys/alt_llist.h:105-117 | exactly this entry leaves the ring and is linked to itself; a second remove changes nothing |
| `LinkedList.RingUnique` | software/keyboard_bsp/HAL/inc/sys/alt_llist.h:64-75 | the head determines the sequence: the abstraction is a function |
| `LinkedList.RingsDisjointOrEqual` | software/keyboard_bsp/HAL/inc/sys/alt_llist.h:64-75 | two rings share all their nodes or none |
| `LinkedList.RemovedMembers` | software/keyboard_bsp/HAL/inc/sys/alt_llist.h:105-117 | removal deletes that element and no other |
| `LinkedList.Replay` | software/keyboard_bsp/HAL/inc/sys/alt_llist.h:90-117 | over any run of insertions and removals, also of entries not in the list, the list is what the sequence operations say |
| `AlarmTime.StartPending` | software/keyboard_bsp/HAL/src/alt_alarm_start.c:80-96 | a started alarm is set for its absolute deadline if and only if its delay is below 2^32 - 1 or the counter is about to wrap |
| `AlarmTime.TickExact` | software/keyboard_bsp/HAL/src/alt_tick.c:109-115 | a pending alarm is found due at its deadline and at no tick before; the flag is set exactly when the deadline lies in the next epoch |
| `AlarmTime.ReschedulePending` | software/keyboard_bsp/HAL/src/alt_tick.c:127-137 | every non-zero period sets the deadline exactly that many ticks ahead |
| `AlarmTime.ShiftPending` | software/keyboard_bsp/HAL/src/alt_tick.c:127-137 | a period added to a deadline set at the same tick delays it by exactly that period if and only if the sum of both stays below 2^32, or is 2^32 as the counter is about to wrap |
| `AlarmTime.NotDueAtOnce` | software/keyboard_bsp/HAL/src/alt_tick.c:115-115 | a timer just started or rescheduled is not found due by a second look at the same tick |
| `AlarmTime.FiresOnSchedule` | software/keyboard_bsp/HAL/src/alt_tick.c:96-138 | over any number of ticks and wraps, the callback runs exactly at the deadlines |
| `AlarmTime.StartFiresOnSchedule` | software/keyboard_bsp/HAL/src/alt_alarm_start.c:64-112 | an alarm started at tick T with delay n first fires at T + n + 1 and then once per period, if and only if n is below 2^32 - 1 or the counter is about to wrap |
| `AlarmTime.FiresEarly` | software/keyboard_bsp/HAL/src/alt_alarm_start.c:89-96 | with the longest delay, started elsewhere, it fires on the very next tick |
| `AlarmHistory.PunctualMeans` | software/keyboard_bsp/HAL/src/alt_tick.c:75-85 | in the histories the scheduler keeps, each run of a callback comes exactly delay + 1 ticks after the start or exactly one period after the last run, with nothing else happening to the alarm in between; a period returned after an own restart adds to its delay |
| `AlarmHistory.EveryCallObeyed` | software/keyboard_bsp/HAL/src/alt_tick.c:117-138 | whatever a callback returns in a tick is followed: after a period p > 0 its alarm, if nobody started or stopped it, is registered and due p ticks later; after zero, if nobody started it, it is not registered |
| `AlarmHistory.StillListed` | software/keyboard_bsp/HAL/src/alt_tick.c:100-141 | what a tick makes of the list loses no alarm that nobody stopped |
| `AlarmHistory.ShapeStop` | software/keyboard_bsp/HAL/src/alt_tick.c:66-73 | stopping an alarm in front of the cursor, at it, or behind it keeps the account of who has run and who is still to visit |
| `AlarmClock.Clock.Start` | software/keyboard_bsp/HAL/src/alt_alarm_start.c:64-112 | error cases, which change nothing; on success the alarm is first in the list, set for its deadline, the others untouched; between ticks all alarms stay set for their next due ticks |
| `AlarmClock.Clock.Stop` | software/keyboard_bsp/HAL/src/alt_tick.c:66-73 | exactly this alarm leaves the list and is linked to itself; a repeated stop changes nothing |
| `AlarmClock.Clock.Callback` | software/keyboard_bsp/HAL/src/alt_tick.c:117-117 | while a callback starts and stops alarms, its own and the saved successor included, the account of who has run and who is still to visit stays right, and the period it returns is on record |
| `AlarmClock.Clock.Tick` | software/keyboard_bsp/HAL/src/alt_tick.c:87-148 | one pass terminates; exactly the alarms that are due, and that no callback stops before their turn, have their callbacks called, in list order and once each, even if the walk comes to an alarm again; what each callback returned is followed; the list is what the tick's starts and stops make of the old one; all are due in the future, at the ticks their fields say |
| `AlarmClock.Clock.SuccessorReachesHead` | software/keyboard_bsp/HAL/src/alt_tick.c:100-140 | over unchanging links, the head is reached from the saved successor if and only if the successor is registered |
| `AlarmClock.StopTheSuccessor` | software/keyboard_bsp/HAL/src/alt_tick.c:100-140 | a run from startup in which a due alarm's successor is saved and then stopped, and no way leads from it to the head |
| `AlarmClock.Clock.Visit` | software/keyboard_bsp/HAL/src/alt_tick.c:102-139 | the body of the walk, with the list changing under it: an alarm that has its turn, or one the walk has come to again, to which nothing happens |
| `AlarmClock.Clock.Retire` | software/keyboard_bsp/HAL/src/alt_tick.c:121-124 | after a zero return the alarm is out of the list, whether its callback had stopped it or started it anew |
| `AlarmClock.Clock.SetNext` | software/keyboard_bsp/HAL/src/alt_tick.c:125-138 | after a period, which must be the one on record, the alarm is set for exactly that many ticks ahead, or, if its callback had started it anew, for as many ticks later |
| `FdPool.StepKeepsInv` | software/keyboard_bsp/HAL/src/alt_open.c:64-171 | every call keeps the pool invariant: standard slots never free, nothing in use above max(2, alt_max_fd), device descriptors in use and within alt_max_fd, only they locked |
| `FdPool.RunKeepsInv` | software/keyboard_bsp/HAL/src/alt_open.c:64-171 | the same over any sequence of calls |
| `FdPool.CleanStep` | software/keyboard_bsp/HAL/src/alt_fcntl.c:78-92 | every call keeps free slots without flags, but for exactly an fcntl that sets a flag of a free slot |
| `FdPool.CleanRun` | software/keyboard_bsp/HAL/src/alt_release_fd.c:44-51 | the same over any sequence of calls |
| `FdPool.OpenSucceeds` | software/keyboard_bsp/HAL/src/alt_open.c:118-170 | a successful open returns the lowest free descriptor, for that device and with the caller's flags but for the two reserved bits, and changes no other slot |
| `FdPool.OpenFails` | software/keyboard_bsp/HAL/src/alt_open.c:159-166 | a failed open, for whatever reason, clears the slot it tried and touches no other: every slot is as it was exactly if that slot carried no stale flags |
| `FdPool.ClosedDescriptorKeepsFlags` | software/keyboard_bsp/HAL/src/alt_fcntl.c:78-92 | open, close, set O_NONBLOCK on the closed descriptor: the free slot carries the flag, and a failed open wipes it |
| `FdPool.OpenSucceedsExactly` | software/keyboard_bsp/HAL/src/alt_open.c:118-170 | an open succeeds exactly when the name resolves, a descriptor is free, nobody holds a lock on the device and the driver agrees |
| `FdPool.OpenFailsWith` | software/keyboard_bsp/HAL/src/alt_open.c:118-168 | otherwise the error is -ENODEV for an unknown name, else -EMFILE if no descriptor is free, else -EACCES if somebody holds a lock on the device, else the driver's |
| `FdPool.OpeningLasts` | software/keyboard_bsp/HAL/src/alt_open.c:139-139 | over every run a descriptor in use keeps its device and its flags until an fcntl on it, a close of it above 2, or a redirection onto it that succeeds |
| `FdPool.FlagsReadBack` | software/keyboard_bsp/HAL/src/alt_fcntl.c:84-85 | until then, F_GETFL reads the flags given to open, without the reserved bits, whatever is locked and unlocked meanwhile |
| `FdPool.CloseExact` | software/keyboard_bsp/HAL/src/alt_close.c:64-101 | close frees its descriptor above 2 and changes nothing else; the answer is the driver's error, if any |
| `FdPool.IoctlExact` | software/keyboard_bsp/HAL/src/alt_ioctl.c:106-168 | lock and unlock of a device descriptor change one bit of one slot; every other request goes to the driver, or fails with -ENOTTY, and changes nothing |
| `FdPool.FcntlExact` | software/keyboard_bsp/HAL/src/alt_fcntl.c:78-100 | O_APPEND and O_NONBLOCK become the argument's bits, cleared ones included; every other bit and slot stays |
| `FdPool.RedirectMoves` | software/keyboard_bsp/HAL/src/alt_io_redirect.c:58-72 | after a successful redirection the standard descriptor has the device and flags of the open, the opened one is free again, no other slot differs |
| `FdPool.CloseUndoesOpen` | software/keyboard_bsp/HAL/src/alt_close.c:64-101 | closing what an open returned leaves every slot as it was before, exactly if the slot carried no stale flags |
| `FdPool.UnlockUndoesLock` | software/keyboard_bsp/HAL/src/alt_fd_unlock.c:52-56 | unlocking leaves the pool as it was before the lock |
| `FdPool.HeldStep` | software/keyboard_bsp/HAL/src/alt_release_fd.c:44-51 | a call ends a held lock exactly if it unlocks the descriptor, closes it and it is above 2, or redirects onto it with success |
| `FdPool.LockExcludes` | software/keyboard_bsp/HAL/src/alt_open.c:79-87 | over every run a held lock stays held exactly as long as no call ends it, and until then every open of the device and redirection to it fails |
| `FdPool.LockOutlivesClose` | software/keyboard_bsp/HAL/src/alt_release_fd.c:46-50 | redirect standard output, lock it, close it, open the device: the close succeeds and the open is refused |
| `FdPool.OneHolder` | software/keyboard_bsp/HAL/src/alt_fd_lock.c:54-75 | at most one descriptor of a device holds a lock |
| `FdPool.GrantIsSoleUse` | software/keyboard_bsp/HAL/src/alt_fd_lock.c:61-69 | a sole user is granted the lock; a grant means sole use if and only if the scan finds another user or the descriptor at the high-water mark is none |
| `FdPool.GrantWhileShared` | software/keyboard_bsp/HAL/src/alt_fd_lock.c:61-69 | open twice, lock the first: granted although the second is open |
| `FdPool.RedirectKeepsInv` | software/keyboard_bsp/HAL/src/alt_io_redirect.c:58-72 | redirection onto a standard slot keeps the pool invariant |
| `FdPool.IoctlKeepsInv` | software/keyboard_bsp/HAL/src/alt_ioctl.c:106-168 | so does ioctl with lock, unlock and driver requests |
| `FdTable.Table.GetFd` | software/keyboard_bsp/HAL/src/alt_get_fd.c:54-101 | the search loop claims the first free slot, raises the mark, or reports -EMFILE |
| `FdTable.Table.FileLocked` | software/keyboard_bsp/HAL/src/alt_open.c:64-92 | the scan marks the descriptor and refuses exactly when another one in range holds a lock on its device |
| `FdTable.Table.OpenFile` | software/keyboard_bsp/HAL/src/alt_open.c:105-171 | open on the array, with its rollback, is the pool's open |
| `FdTable.Table.CloseFile` | software/keyboard_bsp/HAL/src/alt_close.c:64-101 | close on the array is the pool's close |
| `FdTable.Table.FdLock` | software/keyboard_bsp/HAL/src/alt_fd_lock.c:54-75 | the scan grants exactly when no other slot below the mark has the device |
| `FdTable.Table.IoctlFile` | software/keyboard_bsp/HAL/src/alt_ioctl.c:106-168 | ioctl on the array is the pool's ioctl |
| `FdTable.Table.SetFlags` | software/keyboard_bsp/HAL/src/alt_fcntl.c:66-101 | fcntl on the array changes the two flags it may and nothing else, of any descriptor in range |
| `FdTable.Table.ReadFlags` | software/keyboard_bsp/HAL/src/alt_fcntl.c:84-85 | F_GETFL on the array is the pool's |
| `FdTable.Table.ReleaseFd` | software/keyboard_bsp/HAL/src/alt_release_fd.c:44-51 | frees descriptors above 2 only |
| `FdTable.Table.OpenFd` | software/keyboard_bsp/HAL/src/alt_io_redirect.c:58-72 | a fresh descriptor's state moves to the given slot, or nothing changes |
| `FdTable.Table.IoRedirect` | software/keyboard_bsp/HAL/src/alt_io_redirect.c:85-94 | the three redirections in turn |
| `IntegerPrint.NumeralUnique` | software/keyboard_bsp/HAL/src/alt_log_printf.c:247-297 | a number has only one numeral without leading zeros, so the printers have one right answer |
| `IntegerPrint.PlaceValue` | software/keyboard_bsp/HAL/src/alt_log_printf.c:247-255 | the digit count and largest place value, with `p` never overflowing 32 bits |
| `IntegerPrint.PrintDigits` | software/keyboard_bsp/HAL/src/alt_log_printf.c:281-296 | the place-by-place loop writes the numeral |
| `IntegerPrint.PrintInteger` | software/keyboard_bsp/HAL/src/alt_log_printf.c:206-297 | the integer branch writes sign, padding and numeral for every 32-bit value, the most negative included |
| `IntegerPrint.ConversionRoundTrip` | software/keyboard_bsp/HAL/src/alt_log_printf.c:206-297 | for every base, case, flag and width, reading the text back gives the value; its digits are in that base and case; zeros fill it behind the sign with the zero flag, spaces in front of it without; its length is max(width, digits + sign) |
| `IntegerPrint.SpellsOnce` | software/keyboard_bsp/HAL/src/alt_log_printf.c:206-297 | only one text meets these expectations |
| `IntegerPrint.PrintHex` | software/keyboard_bsp/HAL/src/alt_printf.c:82-111 | the shift-and-mask loop writes the numeral in base 16 |
| `IntegerPrint.HexBothWays` | software/keyboard_bsp/HAL/src/alt_printf.c:85-110 | the two %x printers write the same text for every 32-bit value |
| `Printf.LogPrintf` | software/keyboard_bsp/HAL/src/alt_log_printf.c:114-341 | the character-by-character state machine writes what the directive grammar says, and that says, piece by piece, what a caller expects of each character, %% and directive |
| `Printf.FormatMeans` | software/keyboard_bsp/HAL/src/alt_log_printf.c:130-341 | for every format, the output is that of its pieces in turn, each directive taking the next argument: %d and %i spell the signed value in base 10, %u, %o, %x and %X the unsigned one in base 10, 8, 16 and 16 in capitals, %c and %s put theirs at the right of the field, an unknown letter sends nothing and takes none; a directive cut off by the end sends nothing |
| `Printf.EveryFormat` | software/keyboard_bsp/HAL/src/alt_log_printf.c:130-204 | every string is such a format |
| `Printf.OneOutput` | software/keyboard_bsp/HAL/src/alt_log_printf.c:130-341 | these expectations leave a single output |
| `Printf.AltPrintf` | software/keyboard_bsp/HAL/src/alt_printf.c:48-127 | so does the other interpreter, for its own grammar |
| `Printf.UnknownLetter` | software/keyboard_bsp/HAL/src/alt_printf.c:70-119 | a letter that interpreter does not know sends nothing and takes no argument |
| `Printf.CommonFormatsAgree` | software/keyboard_bsp/HAL/src/alt_printf.c:48-127 | on formats both support they send exactly the same text, whatever the arguments |
| `Printf.PrintBothWays` | software/keyboard_bsp/HAL/src/alt_log_printf.c:114-341 | running both interpreters on a common format gives one text |
| `Printf.WidthIsDecimal` | software/keyboard_bsp/HAL/src/alt_log_printf.c:176-195 | the width is the decimal number in front of the first point, or none; an l does not count |
| `Printf.WidthOverflowsLast` | software/keyboard_bsp/HAL/src/alt_log_printf.c:176-195 | reading a width overflows an int in no step if and only if the width itself fits |
| `TimeOfDay.TimeKeeper.Set` | software/keyboard_bsp/HAL/src/alt_settod.c:72-96 | the offset recorded, in 32-bit arithmetic; nothing changes without a clock |
| `TimeOfDay.TimeKeeper.Get` | software/keyboard_bsp/HAL/src/alt_gettod.c:71-124 | the two loops compute the normalised time, including the clamp to zero |
| `TimeOfDay.TicksSplit` | software/keyboard_bsp/HAL/src/alt_gettod.c:91-93 | whole seconds and remaining microseconds add up to the ticks' microseconds when the rate divides a million |
| `TimeOfDay.ReportedExact` | software/keyboard_bsp/HAL/src/alt_settod.c:82-84 | get after set is exactly the set time plus the elapsed ticks if and only if 15625 divides the number of times the product at the set wrapped, or time zero is read back at once and the clamp to zero hides the error |
| `TimeOfDay.SetReadsBackWrong` | software/keyboard_bsp/HAL/src/alt_settod.c:82-84 | at 1000 ticks a second and tick 4294968, a time set is not the time read back at once |
| `TimeOfDay.ReportedWithoutWrap` | software/keyboard_bsp/HAL/src/alt_gettod.c:91-112 | while the product fits in 32 bits the report is exact, its microseconds are in range and no time is clamped |
| `TimeOfDay.RateMustDivide` | software/keyboard_bsp/HAL/src/alt_gettod.c:91-93 | a clock set to zero reads the time at every tick if and only if the rate divides a million; at the end of the first second also at every rate above a million, where it is wrong one tick before |
| `IrqNesting.StepKeepsInv` | software/keyboard_bsp/HAL/inc/priv/alt_legacy_irq.h:68-149 | dispatch, sections, returns, and enables and disables wherever no masked interrupt is active, keep the nesting invariant |
| `IrqNesting.EveryRunNests` | software/keyboard_bsp/HAL/inc/priv/alt_legacy_irq.h:68-149 | in every run the running routines have strictly decreasing numbers, at most 32 deep, and IENABLE is the active set under the priority mask |
| `IrqNesting.ActiveMeans` | software/keyboard_bsp/HAL/inc/priv/alt_legacy_irq.h:68-99 | over every run an interrupt is active exactly if it was enabled and not disabled since, or active to begin with and never disabled |
| `IrqNesting.DispatchesExactly` | software/keyboard_bsp/HAL/src/alt_irq_handler.c:128-159 | over every run there is something to take exactly if some interrupt is requested, turned on, and lower than every running routine; the one dispatched is the lowest of these; the handler returns exactly if there is none |
| `IrqNesting.ReturnRestores` | software/keyboard_bsp/HAL/inc/priv/alt_legacy_irq.h:139-149 | whatever nests inside, a routine's return leaves mask, IENABLE and interrupted routines as its dispatch found them |
| `IrqNesting.EnableInsideSection` | software/keyboard_bsp/HAL/inc/priv/alt_legacy_irq.h:68-99 | after an enable or disable anywhere, every later run keeps the nesting if and only if no active interrupt is masked |
| `IrqNesting.EnableBreaksNesting` | software/keyboard_bsp/HAL/inc/priv/alt_legacy_irq.h:86-99 | in a run from startup, re-enabling interrupt 5 in the section of routine 3 lets it preempt that routine |
| `IrqNesting.Controller.FindLowest` | software/keyboard_bsp/HAL/src/alt_irq_handler.c:132-155 | the bit-by-bit loop finds the lowest pending interrupt |
| `IrqNesting.Controller.Handler` | software/keyboard_bsp/HAL/src/alt_irq_handler.c:128-159 | the dispatch loop, with routines that may change enables, open any number of sections and be interrupted in each any number of times, ends with nothing pending and the mask and interrupted routines as it found them |
| `IrqNesting.Controller.MakeInterruptible` | software/keyboard_bsp/HAL/inc/priv/alt_legacy_irq.h:118-133 | the mask and IENABLE of a section |
| `IrqNesting.Controller.MakeNonInterruptible` | software/keyboard_bsp/HAL/inc/priv/alt_legacy_irq.h:139-149 | the end of a section |
| `Heap.SbrkSizeExact` | software/keyboard_bsp/HAL/src/alt_sbrk.c:75-95 | a successful request gets exactly the bytes asked for if and only if the pointer sum does not wrap |
| `Heap.SbrkGrants` | software/keyboard_bsp/HAL/src/alt_sbrk.c:75-95 | a request of any sign that wraps no pointer is granted exactly if the new heap end is within the limit, at the old end rounded up |
| `Heap.ShrinkUndoesGrow` | software/keyboard_bsp/HAL/src/alt_sbrk.c:75-95 | giving the last request's bytes back restores the heap end if and only if their number is a multiple of four |
| `Heap.SafeLimitExact` | software/keyboard_bsp/HAL/src/alt_sbrk.c:75-95 | from any heap end, all sequences of requests of ints get ordered, disjoint blocks if and only if the heap limit is at most the middle of the address space |
| `Heap.BlocksDisjoint` | software/keyboard_bsp/HAL/src/alt_sbrk.c:75-95 | over any sequence of requests in which no pointer wraps the blocks are word-aligned, inside the heap, increasing and disjoint; and only then, for a heap end and limit of at most 2^32 - 4 |
| `CallGraph.Profiler.CallSbrk` | software/keyboard_bsp/HAL/src/alt_sbrk.c:68-136 | sbrk on the heap end for every int; a non-negative request that wraps no pointer gets no byte below the old end |
| `CallGraph.Profiler.Allocate` | software/keyboard_bsp/HAL/src/alt_gmon.c:133-149 | while sbrk succeeds a record overlaps no record carved before; when it fails the record is at the last address and the invariant is lost |
| `CallGraph.FnPrepended` | software/keyboard_bsp/HAL/src/alt_gmon.c:182-192 | linking a function entry puts it first in its bucket and loses nothing |
| `CallGraph.ArcPrepended` | software/keyboard_bsp/HAL/src/alt_gmon.c:196-202 | linking an arc puts it first on its function and loses nothing, in any bucket |
| `CallGraph.Profiler.RecordCall` | software/keyboard_bsp/HAL/src/alt_gmon.c:164-205 | on records in memory, where a store destroys what it overlaps: all lists stay acyclic, and the graph read from them is the old one with the call recorded |
| `CallGraph.RecordingCounted` | software/keyboard_bsp/HAL/src/alt_gmon.c:164-205 | a recording counts one call more between its two addresses and changes no other count |
| `Character.Kid.NextMotion` | Character.sv:216-382 | facing, speed and jump flag for the next frame |
| `Character.Kid.ClockEdge` | Character.sv:63-92 | one clock edge on the registers, with the boundary override and reset |
| `Character.JumpsExactly` | Character.sv:137-211 | over every run, the character is in jump_1 exactly if a jump goes on, or W is pressed on supported ground, or in a fall that does not end while the jump in the air is free |
| `Character.FallsExactly` | Character.sv:137-211 | it falls exactly if a jump has lost its speed, the ground is gone, or a fall goes on without a jump; the two pictures of a fall take turns |
| `Character.StandsExactly` | Character.sv:137-211 | it is on the ground exactly if a fall ends, by hit_y, ground or the lowest row, or if it stood supported and W is not pressed; it runs exactly on A or D, the two pictures taking turns |
| `Character.Steered` | Character.sv:216-376 | A turns it left and D right, A before D, by five pixels a frame but from idle, in every frame but those of a jump and of the end of a fall |
| `Character.Lifted` | Character.sv:216-376 | its vertical speed after every frame: -16 by W on the ground, -10 by a jump in the air, zero at the end of a fall, else two more a frame |
| `Character.MovesBySpeed` | Character.sv:86-128 | it moves by its signed speeds, or to the row that comes with hit_y or else hit_top; moves off the screen are dropped and the 10-bit wrap never brings it to the other side |
| `Character.SpeedInJump` | Character.sv:282-304 | after a reset, jump_2 is never entered and the speed in jump_1 is even and in [-16, 0], over every input sequence |
| `Character.JumpLasts` | Character.sv:177-183 | a jump of speed -2m gains two each frame and falls after exactly m + 1 frames |
| `Character.JumpHeight` | Character.sv:101-102 | undisturbed and away from the top it rises exactly m * (m + 1) pixels |
| `Character.JumpStarts` | Character.sv:328-335 | a jump begins with nine frames to go from the ground, six from the air, the latter only once |
| `Character.EveryJumpEnds` | Character.sv:177-183 | after a reset, no ten consecutive frames are spent in jump_1 |
| `Character.JumpsBetweenGroundings` | Character.sv:137-212 | between groundings jump_1 is entered at most once from the ground and once from the air, over every run |
| `Character.DeadIsFinal` | Character.sv:212-212 | only a reset leaves dead |
| `Character.DiesExactly` | Character.sv:137-212 | over every run the character is dead exactly if it touched something deadly, or was dead to begin with, and no reset came since |
| `Character.MovesAsItFaces` | Character.sv:216-382 | over every run the sideways speed is 0 or 5 pixels in the direction the character faces |
| `Character.StaysOnScreen` | Character.sv:86-89 | positions never leave the screen, and there the 10-bit floor test holds in the lowest row only |
| `Character.FallLands` | Character.sv:191-211 | with nothing touched, a fall from rest lands if and only if its height is k * (k - 1) for some k, after exactly k + 2 frames; from any other row it never does |
| `Character.FallGoesDown` | Character.sv:353-358 | such a fall has come n * (n - 1) rows down after n frames |
| `Character.LostStep` | Character.sv:86-89 | a fall that has missed the bottom row keeps missing it, through the wrap of its speed and the jump to the top |
| `Character.ResetPlaces` | Character.sv:64-89 | when exactly a reset moves the character to its start |
| `Character.ResetLeavesAtEdge` | Character.sv:86-89 | a reset to column 600, a run to the right and a reset to column 100 leave the character at column 605 |
| `Character.IsKidExact` | Character.sv:131-134 | at every frame exactly the pixels of a 32 by 32 box are the character's, though distances wrap |
| `Character.AddressInjective` | Character.sv:413-423 | no two sprite pixels share an address |

Field width, and the `0` flag of a conversion without a precision, follow section 7.21.6.1 of
ISO/IEC 9899:2011. With a precision that section ignores the flag for integers; the code reads the
precision, does nothing with it, and keeps the flag.

## Left out

- UartDriver.JtagUart.Write: the busy wait is bounded by a parameter; a call that is still waiting when it runs out ends in the outcome `Waiting`, because liveness of the host is not assumed; that a wait does not outlast its cause is proved of the protocol (`UartTheorems.SpaceIsTaken`, `UartTheorems.GoneHostEndsWrite`, `UartTheorems.ReadReturns`).
- UartDriver.JtagUart.AwaitSpace: the same bound, in the wait itself.
- UartDriver.JtagUart.Read: the same bound on its busy wait.
- UartDriver.JtagUart.AwaitByte: the same bound, in the wait itself.
- UartDriver.JtagUart.Close: the same bound on its busy wait.
- AlarmClock.Clock.Start: a delay of 2^32 - 1 away from a wrap is excluded (`AlarmTime.FiresEarly` covers it), as is starting an alarm that is registered, which would link it twice.
- AlarmClock.Clock.Adopt: a new alarm structure is linked to itself, where the code's has null links, so stopping an alarm that was never started is not modelled.
- AlarmClock.Clock.Callback: a callback leaves the saved successor registered (`SuccessorReachesHead` says why), and the period it returns after starting its own alarm anew stays below 2^32 with the new delay (`AlarmTime.ShiftPending`); a tick in which a callback uses the longest delay as the counter is about to wrap is not one in which a callback stops and restarts the successor.
- FdPool.LockExcludes: close and ioctl are passed descriptors that are negative or in use, fcntl any in range; one call runs at a time, as the descriptor semaphore arranges under an operating system.
- IrqNesting.EveryRunNests: register values are sets of bit positions instead of words; enables that leave a masked interrupt active are excluded, because they break the nesting (`EnableInsideSection`).
- IntegerPrint.PrintHex: the shift and mask operators are written as the arithmetic they perform on 32-bit words.
- Printf.LogPrintf: the field width is an unbounded integer; one of 2^31 and more overflows the code's int (`WidthOverflowsLast`), which C leaves undefined, and so does a precision, which is read and not used; formats that give too few arguments read a fixed default.
- TimeOfDay.ReportedExact: the counter does not wrap between set and get, and seconds stay within 32 bits.
- Heap.BlocksDisjoint: sequences with requests of negative size, which give blocks back (`SbrkGrants` covers each, `ShrinkUndoesGrow` the pair), the ALT_MAX_HEAP_BYTES variant and stack checks.
- CallGraph.Profiler.RecordCall: sbrk is assumed to supply a slab, because the code ignores its failure (`Allocate` says what it gets then); memory is a map from addresses to whole records; the assembly path that counts repeated calls is not visible; the call that tries to start the sampling alarm is left out.
- The UART driver's ioctl, which sets the timeout and reads whether the host is there: the timeout is constant here.
- Commands of fcntl other than F_GETFL and F_SETFL: they fail with EINVAL.
- The UART small driver, the uC/OS-II branches, event flags and the IGNORE_FIFO_FULL_ERROR reset: other build configurations.
- Bodies of device callbacks: they stand as a returned status with no access to the tables.
- The USB bring-up programs: register pokes and polling of an unseen chip.
- Inline assembly, cache instructions, exception-entry code: replaced by plain state or left out.
- ENOSYS stubs and one-branch system-call wrappers: only easy members.
- Sprite lookup tables, bus plumbing and the other game objects: they depend on modules that are not part of this model.
