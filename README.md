# i8254 time accumulator, mutex owner word and mmap argument checks

A Dafny model of three small pieces of a kernel's core.

- **The i8254 PIT driver** (`sys/drv/pit.c`). The hardware counter runs in Mode 2 (rate generator). It counts down from a programmed 16-bit divisor to 1, reloads and raises an interrupt. The driver turns successive latched readings of that counter into a monotonic pair (seconds, ticks modulo `TIMER_FREQ`).
  - Module `PitClock` holds pure functions over the accumulator fields (`Started`, `Incremented`, `TicksPassed`, `Updated`, `Interrupted`). It also holds lemmas about those functions and about arbitrary interleavings of `gettime` and interrupts (`Run`).
  - Module `PitDriver` holds the class `PitState`. It has the fields of `pit_state_t`, and its methods update them in place. Each method is proved to leave exactly the state the matching `PitClock` function describes.
  - Port output is recorded as a sequence of `(register, byte)` writes. The bytes the device returns are method parameters.
  - All `uint16_t` arithmetic wraps modulo 2^16, as in the source. The `uint32_t` sum in `pit_incr_cntr` wraps modulo 2^32.
- **The mutex owner word** (`include/sys/mutex.h`). The owner thread's address and the flags `MTX_SPIN`, `MTX_NODEBUG` and `MTX_CONTESTED` share one word. The flags sit in the low three bits. Module `Mutex` models the word as a `bv64` and proves that packing and masking are inverse to each other.
- **The mmap/munmap entry points** (`sys/kern/mmap.c`, the kernel side of `mmap()` and `munmap()` of POSIX.1-2017). Module `Mmap` models the sharing-mode check, the page rounding of the length and the alignment checks. It also models the out-parameter protocol: `MAP_FAILED` is stored first, and the entry start is stored only on success. `vm_map_alloc_entry` and `vm_map_destroy_range` are function parameters about which nothing is assumed.

Some constants come from headers that are not part of this model. They take these values:
- `TIMER_FREQ` = 1193182 Hz, the standard i8254 input clock. The model relies on it exceeding `0xFFFF` (`PitClock.FreqExceedsIncrement`).
- The 8254 control-word bits come from the Intel 8254 datasheet: `TIMER_SEL0` = 0, `TIMER_LATCH` = 0, `TIMER_16BIT` = 0x30, `TIMER_RATEGEN` = 0x04.
- Timer and interrupt values: `TMF_PERIODIC` = 1, `TMF_ONESHOT` = 2, and `IF_FILTERED` as one of the three filter results.
- Memory and error values: `PAGESIZE` = 4096, `EINVAL` = 22, `MAP_SHARED` = 1, `MAP_PRIVATE` = 2.
- `vaddr_t` and `size_t` are taken to be 64 bits wide, and `MAP_FAILED` is all ones. The width is a modelling choice: on a 32-bit platform the rounding in `Mmap.RoundUp` and the end computed in `Mmap.UnmapRange` would wrap at 2^32 instead.
- `roundup(x, y)` is the usual `((x + y - 1) / y) * y`, computed in `size_t`.

Two points about the timer code:
- The update carries into the seconds with a single `if`; one subtraction is enough because every increment is below `TIMER_FREQ`.
- The code asserts that the clock moves strictly forward; the model proves that it never goes back, and that it moves strictly forward when a tick passed (see Findings).

The exactness lemmas rest on one assumption about the hardware, stated in `PitClock.ReadsAt`. The counter is loaded with divisor `p` at tick 0 and counts `p`, `p-1`, ..., `1`, then reloads. Nothing else disturbs it. So a latch at absolute tick `t` reads the descending count `p - t % p`, which `pit_get_counter`'s conversion turns into `t % p`.

## Model

| member | source | states |
|---|---|---|
| `PitClock.FreqExceedsIncrement` | sys/drv/pit.c:41-47 | The assumption the single carry rests on: a `uint16_t` increment is below `TIMER_FREQ`, and the `uint32_t` sum cannot wrap |
| `PitClock.HighByte` | sys/drv/pit.c:28 | `>> 8` of a divisor: the number of whole 256s in it |
| `PitClock.LowByte` | sys/drv/pit.c:27 | `& 0xff` of a divisor: what is left over once the high byte's 256s are taken out |
| `PitClock.Assemble` | sys/drv/pit.c:32-35 | Reassembling `lo \| hi << 8` gives back `lo` as the low byte and `hi` as the high byte |
| `PitClock.SplitThenAssemble` | sys/drv/pit.c:27-35 | Splitting a divisor into `& 0xff` and `>> 8` and reassembling gives the divisor back |
| `PitClock.BitOperationsAgree` | sys/drv/pit.c:27-28 | On 16-bit words, `& 0xff` and `>> 8` are the remainder and the quotient by 256 |
| `PitClock.BitOrIsAssemble` | sys/drv/pit.c:34-35 | On 16-bit words holding two bytes, `lo \| hi << 8` equals `Assemble(lo, hi)` |
| `PitClock.Ascending` | sys/drv/pit.c:37-38 | A descending count in [1, period] becomes `period - count`, in [0, period-1] |
| `PitClock.AscendingReversesOrder` | sys/drv/pit.c:37-38 | A later, smaller count gives a larger ascending value, larger by exactly the ticks counted down |
| `PitClock.ClockOrderIsTickOrder` | sys/drv/pit.c:66-68 | For sub-second parts below `TIMER_FREQ`, lexicographic order on (sec, cntr_modulo) is the order of the tick totals, strict and non-strict |
| `PitClock.Started` | sys/drv/pit.c:107-111 | After a start, the flag is clear, the last reading is 0, the divisor is the given counter and the tick total is 0 |
| `PitClock.Incremented` | sys/drv/pit.c:41-47 | With the sub-second part below `TIMER_FREQ`, it stays below, and the tick total grows by exactly `ticks`; no other field changes |
| `PitClock.TicksPassed` | sys/drv/pit.c:54-59 | With no drop in the reading, it is `now - prev`; after a drop from `prev` below the period, it is `(period - prev) + now`, in (0, period) |
| `PitClock.Updated` | sys/drv/pit.c:49-69 | Records `now`; sets the flag on a drop and leaves it unchanged otherwise; keeps the bound; adds exactly `TicksPassed` to the tick total |
| `PitClock.Interrupted` | sys/drv/pit.c:81-88 | Leaves the flag clear, records `now`, keeps the divisor and keeps the bound |
| `PitClock.UpdateNeverGoesBack` | sys/drv/pit.c:66-68 | An update never makes (sec, cntr_modulo) lexicographically smaller, and makes it strictly larger whenever some tick passed |
| `PitClock.RepeatedReadBreaksStrictAssertion` | sys/drv/pit.c:66-67 | When the counter reads the same value as last time, the clock does not move, so the strict increase asserted there fails |
| `PitClock.WrapCountedOnce` | sys/drv/pit.c:54-59 | With both readings below the period and the reading going down, the flag is set and the total grows by the ticks up to the reload plus those after it |
| `PitClock.InterruptCreditsPeriodUnlessWrapNoticed` | sys/drv/pit.c:81-87 | The interrupt adds one extra period exactly when no wrap was noticed since the last interrupt, its own update included |
| `PitClock.Step` | sys/drv/pit.c:49-89 | One call to the update or to the interrupt handler records the value read and leaves the divisor alone; after an interrupt the wrap flag is clear |
| `PitClock.Run` | sys/drv/pit.c:49-89 | A sequence of such calls leaves the divisor alone, and the value recorded is the one the last call read |
| `PitClock.RunNeverGoesBack` | sys/drv/pit.c:49-89 | For every interleaving of gettime and interrupt calls and every reading, the clock never goes back, the bound holds and the divisor is unchanged |
| `PitClock.ReadsAt` | sys/drv/pit.c:37-38 | The hardware assumption: a Mode-2 counter loaded with `p` at tick 0 shows the descending count `p - t % p` at tick `t`, and the conversion of `pit_get_counter` turns that count into the position `t % p` within the period |
| `PitClock.ReadStep` | sys/drv/pit.c:54-59 | Two reads less than a period apart: the update counts exactly the ticks between them, and it sees a drop exactly when a reload happened in between |
| `PitClock.ReadsTrackTime` | sys/drv/pit.c:126-136 | A chain of gettime reads, each less than a period after the previous one, adds exactly the elapsed ticks, and the flag records whether the next period has begun |
| `PitClock.InterruptStep` | sys/drv/pit.c:81-87 | An interrupt read in the period after the previous interrupt's adds exactly the ticks since the last read, whichever call noticed the wrap |
| `PitClock.InterruptIntervalIsExact` | sys/drv/pit.c:74-88 | Between two interrupts read in consecutive periods, with gettime reads less than a period apart, the tick total grows by exactly the elapsed ticks |
| `PitDriver.CommandsSelectCounter0` | sys/drv/pit.c:26-33 | The programming command selects counter 0, low-then-high byte access, mode 2 and binary counting; the latch command selects counter 0 with latch access |
| `PitDriver.FrequencyWrites` | sys/drv/pit.c:25-29 | Three writes: the mode command, then two bytes to counter 0 that reassemble to the divisor |
| `PitDriver.PitState.constructor` | sys/drv/pit.c:9-20 | The zero-filled state record satisfies the invariant and has written nothing |
| `PitDriver.PitState.SetFrequency` | sys/drv/pit.c:25-29 | Appends exactly the three writes for the current divisor |
| `PitDriver.PitState.GetCounter` | sys/drv/pit.c:31-39 | Writes the latch command and returns the ascending value of the two bytes read, low byte first |
| `PitDriver.PitState.IncrCntr` | sys/drv/pit.c:41-47 | The new fields are `Incremented` of the old ones; the invariant holds and the total grows by `ticks` |
| `PitDriver.PitState.UpdateTime` | sys/drv/pit.c:49-69 | The new fields are `Updated` of the old ones for the value read; the invariant holds and the clock never goes back |
| `PitDriver.PitState.Intr` | sys/drv/pit.c:71-89 | The new fields are `Interrupted` of the old ones; the flag is clear and the result is `IF_FILTERED` |
| `PitDriver.PitState.TimerStart` | sys/drv/pit.c:95-117 | Needs periodic and not one-shot flags and a divisor of at most 0xFFFF; resets the fields to `Started(counter)`, programs the divisor and returns 0 |
| `PitDriver.PitState.TimerGettime` | sys/drv/pit.c:126-143 | Updates, then returns (sec, cntr_modulo) as they are after the update; the sub-second part is below `TIMER_FREQ`, and the clock never goes back |
| `Mutex.FlagLayout` | include/sys/mutex.h:41-46 | `MTX_SPIN`, `MTX_NODEBUG` and `MTX_CONTESTED` are distinct bits that make up `MTX_FLAGMASK`; `MTX_SLEEP` is the absence of the spin bit |
| `Mutex.MtxInitializer` | include/sys/mutex.h:48-58 | A mutex initialised with a flags-only type has no owner and carries exactly those flags; for any type it carries the type's low three bits as flags |
| `Mutex.MtxOwner` | include/sys/mutex.h:86-88 | The owner has its low three bits clear, and together with the flag bits it makes up the whole word |
| `Mutex.MtxFlags` | include/sys/mutex.h:41-46 | The flags lie inside the mask, and together with the owner they make up the whole word |
| `Mutex.Pack` | include/sys/mutex.h:33-46 | Packing an 8-aligned owner with flags of at most 7 gives a word from which both are recovered unchanged |
| `Mutex.UnpackPack` | include/sys/mutex.h:41-46 | Every owner word is the packing of its owner and its flags |
| `Mutex.OwnerIdempotent` | include/sys/mutex.h:86-88 | Masking an owner value again gives the same value |
| `Mutex.FlagsDoNotDisturbOwner` | include/sys/mutex.h:86-88 | Setting or clearing flag bits never changes the owner |
| `Mmap.RoundUp` | sys/kern/mmap.c:37 | Below the top page, the result is the least multiple of `PAGESIZE` not below the length; a length within a page of 2^64 wraps to 0 |
| `Mmap.SharingCheck` | sys/kern/mmap.c:39-43 | The two comparisons reject a request exactly when it asks for both sharing modes or neither |
| `Mmap.Mmap` | sys/kern/mmap.c:26-56 | `EINVAL` unless exactly one sharing mode is set; success exactly when allocation of the rounded length succeeds, and then the entry start; otherwise the allocator's error; on every error the address is `MAP_FAILED` |
| `Mmap.AddrSlot.Store` | sys/kern/mmap.c:36 | A store through `addr_p` sets the value and appends it to the stores so far |
| `Mmap.DoMmap` | sys/kern/mmap.c:26-56 | Returns and leaves in `*addr_p` what `Mmap` gives; stores `MAP_FAILED` first, and the entry start second only on success |
| `Mmap.UnmapRange` | sys/kern/mmap.c:64-70 | A range exists exactly for a non-zero length with page-aligned start and length; it starts at `start`, and when nothing wraps it is non-empty, `length` long and ends page-aligned |
| `Mmap.Munmap` | sys/kern/mmap.c:58-73 | `EINVAL` for a zero or unaligned argument; otherwise the result of destroying exactly `[start, start + length)` |

## Left out

- Bus and port I/O (`bus_read_1`, `bus_write_1`). Writes are recorded in `PitState.ports`, and the bytes read are parameters.
- `pit_attach`, `pit_probe`, the driver table and `tm_register`. This is device-framework plumbing with no arithmetic of its own.
- `pit_timer_stop`, `pic_setup_intr`, `pic_teardown_intr` and `tm_trigger`. These are calls into the interrupt controller and the clock framework, whose code is not part of this model.
- The `bintime` conversions in `pit_timer_start` and `pit_timer_gettime` (`bintime_mul`, `HZ2BT`, and the assert at pit.c:139). `TimerStart` takes the divisor as already computed, and `TimerGettime` returns the raw (sec, cntr_modulo) pair.
- `WITH_INTR_DISABLED` and `assert(intr_disabled())`. Interrupt masking makes each call atomic, so calls are modelled as a sequence (`PitClock.Run`). Concurrency itself is not modelled.
- The uint64_t `sec` field is unbounded in the model. Its wrap after 2^64 seconds is not modelled, and the monotonicity results rely on that.
- `PitClock.InterruptIntervalIsExact`: exactness is proved only under stated conditions.
  - The divisor must be non-zero. The 8254 reads a divisor of 0 as 65536.
  - The previous interrupt's read and this one's must fall in consecutive periods.
  - Each gettime read must come less than a period after the read before it.
  - Outside these conditions a period can be lost or counted twice, as the comment at pit.c:74-80 says. The model does not describe how much.
- The mutex lock operations (`_mtx_init`, `_mtx_lock`, `mtx_unlock`, `mtx_owned`), turnstiles, lockdep and the scoped-lock macros. Their code is not part of this model, and their point is atomics and concurrency. The `m_lockmap` field is dropped from `Mutex.Mtx`.
- `thread_self`, `proc_self`, `klog`, the `static_assert` constant equalities, and the internals of `vm_map_alloc_entry` and `vm_map_destroy_range`. The two vm_map calls are arbitrary function parameters.
- `Mmap.UnmapRange`: the range properties are proved only when `start + length` does not exceed 2^64. Past that, the model hands over the wrapped end, as the 64-bit code does.

## Findings

| source | as written | input that shows it | evidently intended | confidence | as-written member | corrected member |
|---|---|---|---|---|---|---|
| sys/drv/pit.c:66-67 | asserts that (sec, cntr_modulo) strictly increases on every update | two updates whose latched counter reads give the same value (both within one 838 ns counter tick), so `ticks_passed` is 0 and the clock does not move | the clock never goes back, and it moves strictly forward when some tick passed | medium, not executed | `PitClock.RepeatedReadBreaksStrictAssertion` | `PitClock.UpdateNeverGoesBack` |
