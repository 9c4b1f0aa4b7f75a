# Frame capture harnesses, modelled in Dafny

Two small Linux programs claim essentially all free physical memory into one
process. `frame-randomizer` then releases the captured pages in a random
order; `frame-timer` times a fenced, non-temporal write to every captured page
in each of `TIME_LIST` rounds, then writes one record per page and releases
that page before the next. Both share the same core:

- reading the free-page count from the kernel statistics (`get_free_pages`),
- the self-correcting estimate (`update_free_pages`), which only ever moves down,
- the capture loop, which write-touches the mapping page by page and
  re-measures the estimate at checkpoints that halve the distance left.

The model keeps that core imperative: the kernel is a class `Host.Os` whose
oracles are constant functions (what the statistics file holds at each read,
whether a mapping of so many pages is granted, whether each release call is
accepted, the cycle counter at each read) and whose variables count the calls
made and log what the process leaves behind (`Record` events for timing
records written to the diagnostic stream, `Release` events for accepted
release calls). A call to `exit` becomes a returned status or exit code
(`ENOKEY` = 126, `ENOMEM` = 12, `EINVAL` = 22, the Linux values). The
mapping is an `array<int>` holding the written word of each page, plus, for
the timer, an `array2<nat>` holding each page's time slots.

Files: `vmstat.dfy` (module `Vmstat`), `estimate.dfy` (`Estimate`),
`host.dfy` (`Host`), `capture.dfy` (`Capture`), `frame_timer.dfy`
(`FrameTimer`), `frame_randomizer.dfy` (`FrameRandomizer`). The shared
helpers are written once; `get_free_pages` and `update_free_pages` are
textually the same in both source files (src/frame-timer.c:57-84 and
src/frame-randomizer.c:52-79). The capture loop
(src/frame-timer.c:128-135 and src/frame-randomizer.c:113-120) is the same
up to the field written: the timer writes the page's `dummy` word from a
`volatile uint32_t`, the randomizer the page's first `data` word from a
`volatile int`. Both are the page's first word, modelled as one `int` per
page.

The capture loop does not keep the pages touched within the final estimate:
the loop tests `index < free_pages` before a checkpoint and touches the page
afterwards, so when a checkpoint lowers the estimate to exactly `index` that
page is still touched. `Capture.TouchPages` therefore proves
`final <= touched <= final + 1`, and that `touched` is at most the page
count the mapping was created with, so no write leaves the mapping.

## Model

| member | source | states |
|---|---|---|
| `Vmstat.ScanFreePages` | src/frame-timer.c:57-74 | the line loop returns exactly `FreePagesIn(lines)`: the value of the first line keyed `nr_free_pages`, or `NoKey` (the exit with ENOKEY) |
| `Vmstat.FreePagesInFirstMatch` | src/frame-timer.c:62-73 | the scan finds nothing exactly when no line's keyword is `nr_free_pages`; otherwise it yields the value of the first such line, and any first match determines the result |
| `Estimate.Tighten` | src/frame-timer.c:77-84 | the updated estimate is the minimum of the old estimate and owned + reading: at most each, and equal to one of them |
| `Estimate.TightenedIsMinimum` | src/frame-timer.c:128-133 | after a run of checkpoints the estimate is the minimum of the first estimate and every candidate owned + reading |
| `Estimate.TightenedNeverGrows` | src/frame-timer.c:77-84 | a later estimate is never larger than an earlier one |
| `Estimate.SteadyCountKeepsEstimate` | src/frame-randomizer.c:113-120 | when no candidate falls below the first estimate, the capture keeps the whole first estimate |
| `Estimate.NextCheckLimit` | src/frame-timer.c:132 | the next checkpoint bound lies between the index and the estimate and leaves half (rounded up) of the remaining distance |
| `Estimate.OnScheduleAt` | src/frame-timer.c:128-133 | in a run on schedule, checkpoint j fired at the first index past the bound left by the checkpoints before it, and that index was below the estimate they left |
| `Estimate.DueCheckpointNeedsThreePages` | src/frame-timer.c:128-131 | a checkpoint can only fall due when the first estimate is at least three pages, so a smaller capture never re-reads the statistics file |
| `Estimate.OnScheduleOwnedIncreases` | src/frame-timer.c:129-133 | checkpoints on schedule happen at strictly increasing owned-page counts |
| `Host.Releases` | src/frame-randomizer.c:128-130 | the release events of a page order: one per entry, same order, same pages |
| `Host.Os.ReadVmstat` | src/frame-timer.c:60-62 | a read returns the statistics file's contents at that read and consumes one read |
| `Host.Os.ReadCounter` | src/frame-timer.c:92 | a counter read returns the counter at that read and consumes one read |
| `Host.Os.Emit` | src/frame-timer.c:150-154 | a record of the page and its times is appended to the diagnostic stream |
| `Host.Os.Discard` | src/frame-timer.c:155 | a release call targets a page inside the mapping; it is accepted as the kernel decides, and only an accepted call releases the page |
| `Host.GetFreePages` | src/frame-randomizer.c:52-69 | reading the statistics file and scanning it gives `FreePagesIn` of that read |
| `Host.UpdateFreePages` | src/frame-randomizer.c:72-79 | exits with ENOKEY when the key is missing, otherwise the estimate becomes `Tighten(estimate, owned, reading)` of the fresh reading |
| `Capture.ReadsAgreeAt` | src/frame-timer.c:128-133 | checkpoint j of the capture took its reading from the j-th statistics read of the loop |
| `Capture.Recheck` | src/frame-timer.c:130-133 | one checkpoint: the estimate is tightened with the index as owned pages, the bound moves to the midpoint, the run stays on schedule, the estimate stays at or above the index; a read without the key exits with ENOKEY, and that checkpoint was due (the index just past the bound, below the estimate) |
| `Capture.TouchPages` | src/frame-timer.c:128-135 | the loop ends; every page written is below the mapping size; pages 0..touched-1 hold the written value and the rest are unchanged; final = the minimum over the checkpoints, final <= initial; final <= touched <= final + 1; each checkpoint fires at the first index past the bound in force; the checkpoints consume the statistics reads in order; an ENOKEY exit happens only at a due checkpoint (touched is the bound plus one and below the estimate in force) whose read, the one after the checkpoints taken, lacked the key |
| `FrameTimer.PageLayoutFillsPage` | src/frame-timer.c:38-43 | the page fields add up to exactly `PAGE_SIZE` bytes and the time slots start at offset `LINE_SIZE`, past the written word |
| `FrameTimer.Elapsed` | src/frame-timer.c:87-103 | the reported time fits in 32 bits and equals after - before whenever the counter moved by less than 2^32 |
| `FrameTimer.ElapsedIsWrappedDifference` | src/frame-timer.c:91-97 | for any two counter values the reported time is (after - before) mod 2^32, the 32-bit subtraction of the low halves |
| `FrameTimer.DirectWrite` | src/frame-timer.c:87-103 | the write stores the value into the page's word only, between two counter reads, and returns `Elapsed` of those two reads |
| `FrameTimer.FillTimes` | src/frame-timer.c:139-143 | after all rounds every page below n has, in slot s, the time of round s's write to it (its two counter reads are fixed by round and page); rows of the mapping beyond n are unchanged |
| `FrameTimer.EmitTrace` | src/frame-timer.c:148-156 | the output of the release pass has two events per page |
| `FrameTimer.EmitTraceShape` | src/frame-timer.c:148-156 | position 2k holds page k's record with its times, position 2k+1 page k's release |
| `FrameTimer.EmitTraceOrder` | src/frame-timer.c:148-156 | records come in increasing page order, each followed immediately by the release of the same page, and each page is released at exactly one position |
| `FrameTimer.RowOf` | src/frame-timer.c:150-152 | the fields of a page's record are its time slots, all of them, in slot order |
| `FrameTimer.EmitAndRelease` | src/frame-timer.c:148-156 | each record holds the page's `TIME_LIST` slots in order; it returns normally exactly when all n release calls were accepted, and then the output is `EmitTrace` of all n pages; it exits with EINVAL exactly at the first refused call, right after that page's record |
| `FrameTimer.TimeAndRelease` | src/frame-timer.c:137-156 | every record written holds the page's times of all rounds, as `Sample` fixes them; it returns normally exactly when all n release calls were accepted, with the output `EmitTrace` of all n pages, and exits with EINVAL at the first refused call, right after that page's record |
| `FrameTimer.MapAndTime` | src/frame-timer.c:119-156 | a refused mapping exits with ENOMEM having read nothing more, emitted nothing and released nothing; ENOKEY happens only after the mapping was granted, at a due checkpoint of an on-schedule capture whose read, the one after the checkpoints taken, lacked the key; otherwise the captured count is the tightened estimate, every checkpoint was taken below the touched count, which is at most the last bound plus one and at most the captured count plus one, and the records and releases are as in `TimeAndRelease` |
| `FrameTimer.RunTimer` | src/frame-timer.c:110-160 | ENOKEY means the first statistics read lacked the key, or the mapping was granted and the capture stopped at a due checkpoint whose read lacked the key, and then nothing was emitted or released; ENOMEM emits nothing and makes no release call; otherwise the captured count n is the tightened estimate of the first count, each checkpoint was taken below the touched count, which is n or n + 1 and at most the last bound plus one, and on success every one of the n release calls was accepted and the output is one record per captured page, in order, each followed by its release, with the time of every round; EINVAL means the call for the last recorded page was the first one refused |
| `FrameRandomizer.Range` | src/frame-randomizer.c:98-99 | the identity sequence of length n |
| `FrameRandomizer.RangeCounts` | src/frame-randomizer.c:98-99 | every index below n occurs once in the identity sequence and nothing else occurs |
| `FrameRandomizer.PermutationOfRange` | src/frame-randomizer.c:124-125 | a permutation of 0..n-1 has length n, holds only indices below n, none twice, and every one of them |
| `FrameRandomizer.ReleasesEachPageOnce` | src/frame-randomizer.c:128-130 | releasing in a permutation order makes n releases, of distinct pages below n, covering every page below n |
| `FrameRandomizer.FillIdentity` | src/frame-randomizer.c:98-99 | afterwards the walk array is the identity over its whole length |
| `FrameRandomizer.Shuffle` | src/frame-randomizer.c:124-125 | the first n entries are permuted in place and the rest are untouched |
| `FrameRandomizer.PrepareWalk` | src/frame-randomizer.c:91-102 | the first count is the statistics file's count, the walk array is the identity over it, and the estimate is then re-measured with no pages owned; ENOKEY means the first read lacked the key, or the first found it and the second did not |
| `FrameRandomizer.ReleaseWalk` | src/frame-randomizer.c:127-130 | releases walk[0..n) in order, one call per page; it returns normally exactly when all n calls were accepted, and exits with EINVAL at the first refused call, after exactly the earlier pages were released |
| `FrameRandomizer.ShuffleAndRelease` | src/frame-randomizer.c:122-130 | the shuffled prefix is a permutation of 0..n-1 and the pages are released in that order; success means every call was accepted, EINVAL means the first refused call ended the releases |
| `FrameRandomizer.MapAndRelease` | src/frame-randomizer.c:104-130 | a refused mapping exits with ENOMEM with nothing read or released; ENOKEY happens only after the mapping was granted, at a due checkpoint of an on-schedule capture whose read, the one after the checkpoints taken, lacked the key; otherwise the capture count is the tightened estimate, every checkpoint was taken below the touched count, which is n or n + 1 and at most the last bound plus one, and the release pass behaves as `ShuffleAndRelease` |
| `FrameRandomizer.RunRandomizer` | src/frame-randomizer.c:86-134 | ENOKEY means the first read lacked the key, or the pre-mapping read did, or the mapping was granted and the capture stopped at a due checkpoint whose read lacked the key, and then nothing was released; the pre-mapping update with no pages owned can only lower the estimate; ENOMEM releases nothing; otherwise n is the tightened estimate of the mapped count, each checkpoint was taken below the touched count (n or n + 1, at most the last bound plus one), and on success all n release calls were accepted, n <= the mapped count <= the first count and every page 0..n-1 is released exactly once; EINVAL means a release call was refused, the first refused one ending the run |

## Left out

- `drop_page_cache` (src/frame-timer.c:46-54): `sync` and the write to the cache-drop control file are operating-system I/O with nothing to state.
- Opening and reading the statistics file: the model starts from lines already split into a keyword and a number; a malformed line, which leaves the parsed value uninitialised in the source, is not modelled.
- `mmap` and `madvise` semantics: a mapping is granted or refused by an oracle on its page count and becomes fresh arrays; a release is accepted or refused by an oracle per call; the zeroing of a released page is not modelled.
- The mapping is modelled as the array of each page's written word and, for the timer, the array of its time slots, not as one byte block; a record names its page by index instead of printing its address in hexadecimal.
- The inline assembly of `native_direct_write` (fences, `rdtscp`, `movnti`): hardware ordering cannot be stated here; the counter is an oracle and the time is the wrapped difference of its low 32 bits.
- `std::shuffle` seeded from the clock: the model shuffles with Fisher-Yates driven by an oracle stream of draws; only "the result is a permutation" is proved, not uniformity nor the exact draw-to-index mapping of the C++ library.
- The `volatile blackhole` value is a parameter; progress messages on the standard output and the error text printed before an exit are not modelled.
- Integer widths: `size_t` overflow in `free_pages * PAGE_SIZE` and in `owned_pages + get_free_pages ()` is not modelled; counts are naturals.
- The allocation of the walk array with `new` (which could throw) is assumed to succeed.
