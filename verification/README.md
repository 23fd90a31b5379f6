# Models of six character drivers, with proofs

Six drivers of the repository hold real algorithms or state machines. Each is modelled in the form
the C code has (fields updated in place, registers read and written in order, loops) and proved
against a specification in plain mathematics; the promises are then proved about that specification,
over every input, every run or every interleaving.

| files | driver | what is proved |
|---|---|---|
| `ScullFile`, `ScullLaws`, `ScullRuns`, `Scull` | scull3 | the linked block store is a sparse flat file; chunked round trip; no block leaked, freed twice or used after being freed |
| `Heartbeat`, `WatchdogModel`, `WatchdogLaws`, `Watchdog` | watchdog | divisor search and exact running time of the timeout accepted last; magic close, nowayout, register coherence and keep-alive over whole runs |
| `RtcClock`, `Rtc` | rtc | no torn reads from a ticking clock, and where two ticks tear one; set/get round trip |
| `Keys`, `KeyIrqs` | key | no key's latest state is lost under any interleaving; open is all or nothing |
| `Ioremap` | ioremap | mappings reach exactly the requested bytes in 32-bit arithmetic, for the rest of every run |
| `Echo` | echo | bounded message buffer; what any run of writes leaves, and round trips |

`Kernel` holds shared types and a little division theory. `dafny verify dfyconfig.toml` checks the
whole project.

What the outside world decides is a parameter: allocation failures and the addresses and stale
contents that the allocator hands out, where user-memory copies fault, whether a semaphore or a
signal interrupts a call, how many clock ticks pass before each register access, which interrupts
come between two steps, whether a line or an area is granted, and what registers contain after
power loss. Every theorem holds for all of them.

Where the code does something other than it promises, the model follows the code, and the promise is
replaced by the exact condition under which it holds:

- `scull_follow` (scull3/driver/scull3.c:247) never increments its counter, so past the first node it
  walks to the end of the chain and finds nothing, while its callers' comments expect the item'th
  node. The flag `counting` selects the written loop (`false`) or the promised one (`true`); all scull
  results hold for both, and `ScullFile.FollowAgrees`, `ScullLaws.AsWrittenStoresOneNode` and
  `ScullLaws.AsWrittenRefusesSecondNode` say where they differ.
- No call of scull3 allocates a node, so a device that was trimmed once, and the driver's own device
  from the start, can never store a byte: `ScullRuns.TrimmedForGood`. The constructor of `Scull.ScullDev` supplies a chain of n nodes.
- The driver's own device starts with geometry 0 and no node (`Scull.ScullDev.Static`), so a write
  that gets the semaphore before the first write-only open divides by zero (scull3/driver/scull3.c:166):
  `ScullRuns.FirstWriteDivides`, with the exact condition over runs in `ScullRuns.DividesIff` and
  `ScullRuns.StaticDividesIff`. `Scull.ScullDev.WriteAt` requires a geometry just where it has the
  semaphore; nothing else requires one, and the run theorems hold for every run that does not divide
  by zero, from every device.
- A hole of scull3 ends a sequential read although bytes are stored beyond it:
  `ScullLaws.HoleHidesTail`, with the exact law in `ScullLaws.ReadAllExact`.
- The divisor search of the watchdog can end at 257, whose predecessor does not fit the 8-bit
  prescaler field: `Heartbeat.PrescalerFits`, `WatchdogLaws.CoherentDivisor`.
  Its 32-bit product can overflow before the search. Accepted timeouts then run far too short
  (`WatchdogLaws.FieldOverflows`, `WatchdogLaws.ProductOverflows`); `WatchdogLaws.ShortfallIff` gives the
  exact condition, and `WatchdogLaws.NeverLonger` what holds regardless.
- `rtc_gettime` can tear if two ticks fall into its first pass: `Rtc.TornByTwoTicks`, with the exact
  condition in `Rtc.ExactIff`.
- `rtc_settime` can set a wrong time if the minute ends between two of its writes: `Rtc.SetTornAtEach`.
- A key read that is short, or whose copy faults, loses the latest state of a key: `Keys.NoLostStateIff`.
  The driver keeps states and no history, so two changes of a key in a row cancel out unseen:
  `Keys.PulseUnseen`.
- `__ioremap` can answer with an address that does not reach the requested bytes, and maps nothing, if
  the page cover is the whole 32-bit space: `Ioremap.MappingCorrectIff`, `Ioremap.MapsNothingIff`,
  `Ioremap.WholeSpaceGranted`. The last grants an area of no pages, which is up to `get_vm_area`.
- `echo_read` copies from the start of the buffer at every offset (echo/echo.c:125):
  `Echo.ReadsRightIff`.

Constants of headers that are not part of this model: the watchdog's control bits are separate named
flags, an 8-bit prescaler field and a set of other bits; the BCD helpers are the usual decimal nibbles;
`wtd_base` (watchdog/driver/watchdog.c:470) is read as `wdt_base`.

## Model

| member | source | states |
|---|---|---|
| ScullFile.FollowAgrees | scull3/driver/scull3.c:241-252 | the written list walk finds what its callers' comments promise exactly for item 0 or an item past the chain |
| ScullFile.JoinSplit | scull3/driver/scull3.c:115-118 | node, slot and offset of a position are in range, recombine to it, and name the quantum position/quantum |
| ScullFile.SplitJoin | scull3/driver/scull3.c:166-169 | every in-range (node, slot, offset) is the split of exactly the position it recombines to |
| ScullFile.ReachIsCapacity | scull3/driver/scull3.c:166-174 | the walk finds a node for a position exactly when it is below reachable nodes * qset * quantum |
| Scull.ScullDev.EveryBlockReached | scull3/driver/scull3.c:11-24 | in every valid state every allocated block is met when following data, next and the pointer arrays from the device, arrays having length qset and quanta length quantum |
| Scull.ScullDev.NothingShared | scull3/driver/scull3.c:11-24 | the same walk ends in NULL, never comes to one node twice, and finds no array or quantum in two places or outside allocated memory |
| Scull.ScullDev.Follow | scull3/driver/scull3.c:241-252 | returns the item'th node or NULL, per loop variant, reading allocated nodes only |
| Scull.ScullDev.ReadAt | scull3/driver/scull3.c:88-140 | result, position and delivered bytes are those of a read of the flat file, with semaphore failure and copy faults |
| Scull.ScullDev.WriteAt | scull3/driver/scull3.c:142-209 | new state, position and result are those of a write to the flat file, for every allocation outcome and copy fault; exactly the array and the quantum that the write put in place are newly allocated, and every block stays accounted for |
| Scull.ScullDev.NewSlots | scull3/driver/scull3.c:176-181 | linking a cleared pointer array changes no stored byte, shares no block and allocates exactly that array |
| Scull.ScullDev.NewQuantum | scull3/driver/scull3.c:184-188 | linking a fresh quantum turns one hole into a block with arbitrary contents and allocates exactly that block |
| Scull.ScullDev.FreeAll | scull3/driver/scull3.c:222-231 | the loops terminate, leave no block allocated, free each block exactly once and touch none after freeing it |
| Scull.ScullDev.Install | scull3/driver/scull3.c:233-236 | quantum and qset become scull_quantum and scull_qset, in this order, and only when no block is allocated, so no block is ever read with another layout than its own |
| Scull.ScullDev.Trim | scull3/driver/scull3.c:216-239 | afterwards quantum is scull_quantum and qset is scull_qset, the device is empty and owns no memory, and each block it owned was freed exactly once |
| Scull.ScullDev.Open | scull3/driver/scull3.c:73-86 | a write-only open trims, any other leaves the file alone |
| ScullLaws.WriteStatus | scull3/driver/scull3.c:162-204 | exactly which writes succeed, fault, are refused or were interrupted, how many bytes they report, and that a failed write moves neither size nor position |
| ScullLaws.CanStoreIff | scull3/driver/scull3.c:166-188 | a write can store exactly with the semaphore, below the capacity, and where pointer array and quantum exist or can be allocated |
| ScullLaws.WriteArrays | scull3/driver/scull3.c:175-188 | a node gets a pointer array exactly if its write has memory for one, and keeps it even if the quantum cannot be allocated |
| ScullLaws.WriteByte | scull3/driver/scull3.c:183-200 | each byte after a write: the caller's inside the transfer, stale memory where a hole became a block, the old one elsewhere |
| ScullLaws.ReadStatus | scull3/driver/scull3.c:106-139 | exactly which reads succeed, fault or were interrupted, how many bytes each delivers, and where the position stands |
| ScullLaws.ReadBytes | scull3/driver/scull3.c:109-135 | a read delivers the flat contents clipped to size and quantum, and nothing at a hole |
| ScullLaws.WriteAllFits | scull3/driver/scull3.c:142-209 | writing the unwritten tail again and again stores the whole string exactly when its last byte is within reach |
| ScullLaws.WriteAllCalls | scull3/driver/scull3.c:190-192 | it takes one call for every quantum the string touches |
| ScullLaws.WriteAllByte | scull3/driver/scull3.c:190-204 | afterwards the string is there byte by byte and no byte stored elsewhere is lost |
| ScullLaws.ReadAllExact | scull3/driver/scull3.c:88-140 | reading on until done delivers exactly the flat contents up to the count, the size or the first hole, whichever comes first |
| ScullLaws.HoleHidesTail | scull3/driver/scull3.c:121-124 | a byte written to the second quantum of an empty device lies below the size, but no read from 0 on ever comes to it |
| ScullLaws.ReadAllReturns | scull3/driver/scull3.c:88-140 | reading on until done returns a stored stretch |
| ScullLaws.ReadAllCalls | scull3/driver/scull3.c:126-127 | it takes one call for every quantum touched, and one more if it ends before the count |
| ScullLaws.RoundTrip | scull3/driver/scull3.c:88-209 | a string is stored whole iff it ends below the capacity, then comes back whole, each way in one call per quantum, disturbing nothing else |
| ScullLaws.AsWrittenStoresOneNode | scull3/driver/scull3.c:247-249 | with the written walk a string is stored iff it fits into the first node |
| ScullLaws.AsPromisedStoresChain | scull3/driver/scull3.c:172 | with the walk that its callers expect a string is stored iff it fits into the whole chain |
| ScullLaws.AsWrittenRefusesSecondNode | scull3/driver/scull3.c:247-249 | a concrete position inside the chain that the written walk refuses and the promised one accepts |
| ScullRuns.DividesIff | scull3/driver/scull3.c:88-174 | no call of a run divides by zero iff every write that gets the semaphore finds a geometry, from before the run or from a write-only open with usable parameters |
| ScullRuns.StaticDividesIff | scull3/driver/scull3.c:38-174 | on the driver's own device, with usable parameters, iff every such write comes after some write-only open |
| ScullRuns.FirstWriteDivides | scull3/driver/scull3.c:162-166 | as the first call a write divides by zero iff it gets the semaphore |
| ScullRuns.GeometryAlways | scull3/driver/scull3.c:81-236 | after every run quantum and qset are the module's two numbers and the device is empty without a node if some call trimmed; otherwise geometry and chain are those it started with and nothing allocated is gone |
| ScullRuns.TrimmedForGood | scull3/driver/scull3.c:81-236 | without a node, as after a trim, no later call of any run stores or delivers a byte: writes fail and change nothing, reads come back empty |
| ScullRuns.AgreesAlways | scull3/driver/scull3.c:73-209 | over every run of opens, reads and writes without a division by zero, from any device and with any failures, the device agrees with a plain byte file kept from the calls, their results and the bytes that faulting copies moved |
| ScullRuns.ReadsLastWrite | scull3/driver/scull3.c:73-209 | after any such run from an empty device a read delivers, wherever something was written since the last trim, the byte written last |
| Heartbeat.SearchDivisor | watchdog/driver/watchdog.c:143-147 | the search loop ends with the least divisor up to 256 that makes the count fit, else 257, in closed form |
| Heartbeat.LeastDivisor | watchdog/driver/watchdog.c:129-153 | any integer is accepted iff it is at least 1 and some divisor up to 257 makes its 32-bit product fit the count register, and the least such divisor is used |
| Heartbeat.PrescalerFits | watchdog/driver/watchdog.c:164-167 | divisor - 1 fits the prescaler field iff the 32-bit count is below 0x1000000 |
| Heartbeat.RequestSplit | watchdog/driver/watchdog.c:132-161 | for every accepted timeout the requested cycles are the cycles set plus what the two divisions and the 32-bit wrap cut off, each exactly |
| Heartbeat.RoundingLoss | watchdog/driver/watchdog.c:143-161 | with prescaling the count is at least 32768 and the divisor rounding loses under 1/32768 |
| Watchdog.WatchdogDev.Start | watchdog/driver/watchdog.c:96-120 | leaves the timer enabled, reset or interrupt selected, both counters loaded |
| Watchdog.WatchdogDev.Stop | watchdog/driver/watchdog.c:80-94 | clears enable and reset-enable and nothing else |
| Watchdog.WatchdogDev.SetHeartbeat | watchdog/driver/watchdog.c:122-173 | sets margin, count, data register and prescaler to the closed-form setting, or changes nothing and answers -EINVAL |
| Watchdog.WatchdogDev.Open | watchdog/driver/watchdog.c:178-191 | refuses a second open, else takes the lock, disarms and starts |
| Watchdog.WatchdogDev.Release | watchdog/driver/watchdog.c:193-210 | stops if armed, else reloads; disarms and frees the device |
| Watchdog.WatchdogDev.Write | watchdog/driver/watchdog.c:212-238 | the scan arms exactly on a 'V' among the bytes before a fault, and only an unfaulted non-empty write reloads |
| Watchdog.WatchdogDev.IoctlSetTimeout | watchdog/driver/watchdog.c:263-269 | an accepted timeout is installed and reloads, and is reported back unless that copy faults; a rejected one changes nothing |
| Watchdog.WatchdogDev.IoctlGetTimeout | watchdog/driver/watchdog.c:270-271 | reports tmr_margin unless the copy faults, and changes nothing |
| Watchdog.WatchdogDev.Suspend | watchdog/driver/watchdog.c:454-464 | saves both registers and stops |
| Watchdog.WatchdogDev.Resume | watchdog/driver/watchdog.c:466-476 | restores the saved registers and restarts the count |
| WatchdogLaws.ArmedMeans | watchdog/driver/watchdog.c:186-232 | a run is armed iff some non-empty write of it scanned a 'V' and no release, successful open or non-empty write came later |
| WatchdogLaws.ExpectCloseIsArmed | watchdog/driver/watchdog.c:186-232 | after every run the close flag is set iff the run is armed, and the lock is as its opens and releases say |
| WatchdogLaws.Answers | watchdog/driver/watchdog.c:178-275 | after every run, what each operation answers and which timeout it reports, in terms of the operations before, its arguments and where user memory faults |
| WatchdogLaws.MagicClose | watchdog/driver/watchdog.c:193-210 | over every run a release stops the timer iff that write was armed, else reloads; it always frees the device |
| WatchdogLaws.OneHolder | watchdog/driver/watchdog.c:180-181 | successful opens minus releases is 0 or 1 in every run, as the lock bit says |
| WatchdogLaws.NowayoutForGood | watchdog/driver/watchdog.c:183-233 | with nowayout, after the first open no run leaves the awake timer disabled or its expiry action other than soft_noboot selects |
| WatchdogLaws.RunningMeans | watchdog/driver/watchdog.c:178-210 | the timer counts as running iff some open was not followed by a release that was armed and not barred by nowayout |
| WatchdogLaws.ControlAlways | watchdog/driver/watchdog.c:80-173 | over every run from the first open the whole control register: enable iff running, reset and interrupt enable as soft_noboot selects, the fixed division, and every other bit as found, but for the one that a divisor of 257 sets |
| WatchdogLaws.SleepRestores | watchdog/driver/watchdog.c:454-476 | suspend turns the timer off, and whatever registers hold when power returns, resume restores both and reloads the count |
| WatchdogLaws.MarginIsLastAccepted | watchdog/driver/watchdog.c:122-173 | from any state after every run tmr_margin is the timeout accepted last and wdt_count its product over the least fitting divisor, or both are as found |
| WatchdogLaws.RefusedTimeout | watchdog/driver/watchdog.c:129-130 | a timeout below 1, or one that no divisor makes fit, leaves the whole state alone and is answered with -EINVAL, or -EFAULT if it could not be fetched |
| WatchdogLaws.HeartbeatCoherent | watchdog/driver/watchdog.c:263-269 | an accepted timeout makes registers and variables agree from any state; a rejected one changes nothing |
| WatchdogLaws.CoherentDivisor | watchdog/driver/watchdog.c:164-170 | the hardware divides by the driver's divisor iff the count is below 0x1000000 |
| WatchdogLaws.DividesBy128 | watchdog/driver/watchdog.c:96-120 | from the first open on the control register selects the fixed division by 128 in every run, in its saved copy while asleep |
| WatchdogLaws.NeverLonger | watchdog/driver/watchdog.c:96-170 | after every run that leaves the device awake the hardware runs from reload to zero for at most the timeout accepted last, read off the operations, whatever overflowed |
| WatchdogLaws.ShortfallIff | watchdog/driver/watchdog.c:96-170 | then it falls short of that timeout by exactly what the two divisions cut off iff the count is below 0x1000000 and the product stays below 2^32 |
| WatchdogLaws.FieldOverflows | watchdog/driver/watchdog.c:143-167 | 43 s at 50 MHz, accepted after an open with divisor 257: the field reads zero and the timer runs under 1/200 of the request |
| WatchdogLaws.ProductOverflows | watchdog/driver/watchdog.c:129-139 | 11000 s at 50 MHz, accepted after an open although the product wraps: the timer runs under 1/2000 of the request |
| WatchdogLaws.CoherentAlways | watchdog/driver/watchdog.c:96-173 | every run keeps that agreement, through suspend, loss of all registers and resume |
| WatchdogLaws.CountsDown | watchdog/driver/watchdog.c:73-120 | in every timed run the awake counter is the count in force minus the running ticks since the last reload |
| WatchdogLaws.ReloadsExactly | watchdog/driver/watchdog.c:73-269 | exactly which operations reload the counter after which history |
| WatchdogLaws.KeepAliveTheorem | watchdog/driver/watchdog.c:73-269 | the running counter never stands at zero iff every stretch between reloads is shorter than the count in force, even as timeouts change |
| Rtc.GetTime | rtc/driver/rtc.c:305-333 | returns the decoded, shifted fields of the first pass, or of the second if the first ended on second zero; no third pass |
| Rtc.PassExact | rtc/driver/rtc.c:310-315 | a pass over fewer than 60 ticks is exact iff it spans no more ticks than the second it ends on |
| Rtc.ExactIff | rtc/driver/rtc.c:309-320 | the returned time is exact iff the pass it came from meets that condition |
| Rtc.TornReadFree | rtc/driver/rtc.c:309-333 | at most one tick in the first pass, and a retry within the minute, give the clock's time when seconds were last read, over any rollover |
| Rtc.TornByTwoTicks | rtc/driver/rtc.c:310-320 | two ticks in the first pass at the turn of a year give a torn time |
| Rtc.TornAtEach | rtc/driver/rtc.c:310-315 | wherever in the pass the two ticks fall, the fields read before them are the old year's and those read after them the new year's |
| Rtc.SetTime | rtc/driver/rtc.c:335-354 | shifts the caller's year and month in place always, and writes the six registers only for years 100 to 199 |
| RtcClock.BcdDigits | rtc/driver/rtc.c:322-327 | the register encoding is one decimal digit in each half of the byte, both ways |
| RtcClock.TickIsOneSecond | rtc/driver/rtc.c:310-315 | the clock that these reads see goes from any time that exists to the next second, over every end of a day, month, leap year and century |
| Rtc.SetLands | rtc/driver/rtc.c:346-351 | if the minute does not end during the writes the clock shows the caller's time plus elapsed seconds, whatever it showed before |
| Rtc.SetShows | rtc/driver/rtc.c:338-351 | then each register shows the caller's own field, the month one higher and the year 100 lower |
| Rtc.SetTornAtEach | rtc/driver/rtc.c:346-351 | one tick between two writes that ends the minute sets a wrong time: the fields written before it have turned over, those written after it have not |
| Rtc.SetThenGet | rtc/driver/rtc.c:305-354 | setting and reading back within the minute yields the caller's own fields, seconds advanced by what elapsed |
| Keys.Buttons.OnInterrupt | key/driver/keys.c:45-59 | records the pin level and raises the flag only on a change |
| Keys.Buttons.ReadEnter | key/driver/keys.c:117-122 | gets past the wait iff an event is pending or a signal woke a blocking reader, and answers -EAGAIN exactly for a non-blocking one without an event |
| Keys.Buttons.ReadClear | key/driver/keys.c:124 | the flag is cleared before the first of at most six bytes is copied |
| Keys.Buttons.ReadReturn | key/driver/keys.c:126-128 | -EFAULT, or the number of bytes |
| Keys.Buttons.Poll | key/driver/keys.c:131-141 | readable exactly when a non-blocking read would get past the test |
| Keys.EnterGetsIn | key/driver/keys.c:117-122 | after every run a reader gets in iff an event is pending or it is a blocking one that a signal woke |
| Keys.ReadDelivers | key/driver/keys.c:114-129 | after every run a read that gets in and is not interrupted leaves the flag down and the user with the states of min(6, count) keys, or of those copied before a fault |
| Keys.FlagMeans | key/driver/keys.c:51-124 | in every run the flag is up iff some key has changed since a reader last cleared it |
| Keys.NoStateLostAlways | key/driver/keys.c:45-128 | in every interleaving of interrupts with full reads, a key whose state the user does not know is flagged or still to be copied |
| Keys.ShortReadLoses | key/driver/keys.c:124-128 | a run in which a read of fewer than six bytes loses a key's latest state |
| Keys.FaultLoses | key/driver/keys.c:124-128 | a run in which a faulting copy loses a key's latest state |
| Keys.PulseUnseen | key/driver/keys.c:50-56 | after any run two changes of one key in a row leave nothing behind but the flag, so no reader can ever see them |
| Keys.NoLostStateIff | key/driver/keys.c:45-128 | no key's latest state is lost in any run iff reads ask for six bytes and copies cannot fault |
| Keys.KeysFollowPins | key/driver/keys.c:50-53 | in every run a key's state is the level of its last interrupt |
| Keys.BlockedReaderKnows | key/driver/keys.c:117-122 | a reader with no event pending already holds the level of every key's last interrupt |
| KeyIrqs.IrqTable.Open | key/driver/keys.c:61-98 | succeeds iff every line is free and granted; on failure the handlers are exactly what they were |
| KeyIrqs.IrqTable.Close | key/driver/keys.c:100-112 | frees the lines its entries own |
| KeyIrqs.GrantedIff | key/driver/keys.c:66-82 | open succeeds iff every entry with a line is granted it, nobody holds it and no earlier entry has it too |
| KeyIrqs.RequestedExactly | key/driver/keys.c:66-82 | after a successful open every entry owns its line and no other line has changed |
| KeyIrqs.FreedExactly | key/driver/keys.c:100-112 | from any handlers a close removes exactly the lines that the table's entries own |
| KeyIrqs.OpenThenClose | key/driver/keys.c:61-112 | a successful open followed by a close restores the handlers, for any table |
| Ioremap.CoverSize | ioremap/driver/ioreamp.c:172-177 | the 32-bit rounding yields the page cover's size, even where the end wraps to zero, and zero only for the whole space |
| Ioremap.LeastCover | ioremap/driver/ioreamp.c:172-177 | that cover contains the request and no fewer whole pages do |
| Ioremap.Mmu.RamCheck | ioremap/driver/ioreamp.c:160-170 | visits the frames of the cover in order, each once, and succeeds iff all are reserved |
| Ioremap.Mmu.MapPages | ioremap/driver/ioreamp.c:172-191 | maps the cover in a free area, or restores page table and areas on failure |
| Ioremap.Mmu.Ioremap | ioremap/driver/ioreamp.c:135-192 | the answer and the new page table in unbounded arithmetic, refusals included |
| Ioremap.Mmu.IoremapMode | ioremap/driver/ioreamp.c:203-247 | the constant-argument fast path answers as the general path on every input |
| Ioremap.DirectExactly | ioremap/driver/ioreamp.c:144-155 | an empty or wrapping request is refused, and an uncached one in the first 512 MB gets its address in the uncached window whatever else holds, changing nothing |
| Ioremap.GrantedIff | ioremap/driver/ioreamp.c:157-192 | every other request is granted iff each covered frame is reserved or it lies at or above high memory, the offered area is free, and remapping does not fail within the cover; address, area and page table are then stated, and otherwise nothing changes |
| Ioremap.MappingCorrect | ioremap/driver/ioreamp.c:149-192 | every byte of a non-null mapping translates to the requested physical byte, on both paths |
| Ioremap.MappingCorrectIff | ioremap/driver/ioreamp.c:135-192 | a non-null answer reaches all requested bytes iff the page cover is not the whole 32-bit space |
| Ioremap.WholeSpaceGranted | ioremap/driver/ioreamp.c:172-191 | all but the last byte of the space, requested where every page may be mapped, is answered with an address that translates to nothing |
| Ioremap.MapsNothingIff | ioremap/driver/ioreamp.c:177-183 | a non-null page-table answer maps nothing iff the cover is the whole space |
| Ioremap.NothingElse | ioremap/driver/ioreamp.c:157-190 | existing mappings stay, refusals change nothing, RAM below high memory is mapped only if reserved |
| Ioremap.ReachesForGoodIff | ioremap/driver/ioreamp.c:135-192 | in every run of requests a non-null address still reaches its request at the end, whatever was requested since, iff its cover is not the whole space |
| Ioremap.RamStaysUnmapped | ioremap/driver/ioreamp.c:157-170 | no run of requests maps a frame below high memory through the page table unless it is reserved |
| Echo.EchoDev.WriteAt | echo/echo.c:135-168 | new message, offset and result for accepted, refused and faulting writes; the length stays within 255 and is followed by NUL |
| Echo.EchoDev.ReadAt | echo/echo.c:111-129 | delivers the leading bytes of message and NUL, as many as remain from the offset, or a prefix of those and -EFAULT |
| Echo.WriteAnswers | echo/echo.c:135-168 | what a write leaves and answers: refused off both ends without a change, else the old text up to the offset, the moved bytes and the offset at their end, with -EFAULT for a fault |
| Echo.ReadAnswers | echo/echo.c:111-129 | what a read hands over and answers, byte by byte from the start of the buffer, with -EFAULT for a fault |
| Echo.ReadsRightIff | echo/echo.c:122-125 | reads deliver the bytes due for every message iff the offset is 0 or nothing is delivered |
| Echo.AppendKeeps | echo/echo.c:145-161 | an append keeps what is there, adds a prefix of the data, and ends where the next append is accepted |
| Echo.ChunkedRoundTrip | echo/echo.c:111-168 | a fresh write and appends in any chunking leave the string cut at 255 bytes, and a large read returns it with its NUL |
| Echo.ChunkingIrrelevant | echo/echo.c:135-168 | two chunkings of one string leave the same message |
| Echo.RunIsSent | echo/echo.c:111-168 | after every run of fresh, appended, refused and faulting writes the message is what the accepted ones sent since the last fresh start, cut at 255; it says which write is refused next, and a large read returns it |

## Left out

- Scull.ScullDev.WriteAt: memory is a map from addresses to blocks inside the device rather than Dafny objects, so that loads from freed blocks and double frees are proof obligations; positions and geometry are unbounded and not negative, so the casts to `long` and `int`, an overflow of quantum * qset and negative module parameters are not modelled; one allocator contract (fresh, distinct addresses) is assumed of the caller.
- Scull.ScullDev.Open: the trim on open takes no semaphore in the source; calls are modelled as atomic.
- Scull.ScullDev.FreeAll: the module's exit does not trim, so freeing at unload is not modelled.
- Watchdog.WatchdogDev.SetHeartbeat: the clock rate is one constant of the device.
- Watchdog.WatchdogDev.IoctlGetTimeout: the ioctls that report the fixed identity and status words are not modelled.
- WatchdogLaws.CountsDown: what the hardware does after the counter reached zero (reset, or interrupt and automatic reload) is not modelled beyond the interrupt handler's own reload.
- Rtc.SetTime: the caller's fields other than the year are taken as valid, as the kernel's RTC core checks before the call.
- Rtc.TornReadFree: alarm, periodic interrupt and enable functions are not modelled; their register use does not fit a round trip.
- KeyIrqs.IrqTable.Open: pin configuration and the line's disable count are not modelled.
- Ioremap.Mmu.Ioremap: masks are written as arithmetic, and the 64-bit address mode, which is compiled out, is omitted.
- Echo.EchoDev.WriteAt: module load and unload, and concurrent writers, are not modelled.
- Probe, remove, registration, debug output, and the remaining drivers (adc, pwm, led, mmap, cp0, completion, version, hello, skeleton, filp_open) with their application programs: these drivers set a register or make one kernel call per operation and keep next to no state between calls, so there is nothing that one call promises to another.
