# OS/161 kernel and libc: a verified model

This project models the parts of OS/161 (kernel, libc and compiler support of the
SHELL configuration) whose correctness is least obvious from reading them, and
proves what they promise. Everything is in Dafny 4.11; `dafny verify dfyconfig.toml`
checks all of it.

- **64-bit arithmetic from 32-bit words.** `__qdivrem` is Knuth's Algorithm D over
  in-place digit arrays, generic in the base and in the numbers of digits
  (`Words`, `AlgorithmD`, `LongDivision`); `__divdi3` and `__moddi3` wrap it
  (`SignedDivision`); `__muldi3` and `__lmulq` multiply with three products (`MulDi3`).
- **The kernel heap.** `kmalloc.c` with its free lists threaded through pages, the
  two lists of page records and the bitmap allocator of the records (`Chains`,
  `Blocks`, `Pagerefs`, `HeapPages`, `KernelHeap`), and every interleaving of many
  threads that allocate and free (`HeapRuns`).
- **Threads on several CPUs.** `thread.c` as a step system (`Placement`, `Threads`),
  what becomes of a thread over its runs (`ThreadRuns`), migration run by itself
  (`Balancing`), interrupt levels, interrupts and spinlock counts across switches
  (`Ipl`) in every interleaving of CPUs (`IplRuns`), and the doubly linked lists
  (`ThreadList`).
- **Sleep, wakeup and deadlock detection.** Semaphores, locks and condition
  variables as interleaved steps (`Semaphores`, `LocksAndCvs`), served in order
  (`Queues`); the waits-for graph and the detector that walks it (`WaitsFor`, `Hangman`).
- **Round trips.** An argument vector from one address space to another
  (`CopyInOut`, `Argv`); numbers printed and read back (`Numerals`, `Printf`, `Atoi`).
- **Two smaller machines.** Shared open-file counts (`FileTables`) over every run of
  the calls (`FileRuns`), and the console's input ring (`Console`).

Code that changes state in place is modelled by methods over arrays, fields and
linked objects, each proved against a function or predicate on values; what is
promised is then proved about those. Code that several CPUs run at once is a step
system, with the invariant proved for every step and so for every run. The safety
statements are about every state some interleaving can reach, and about whole runs,
states and steps: what happens to a thread between a call and its return, told by
what can be seen in the states and not by what the steps record.

Five properties one would expect turn out not to hold of the code. Each is kept as
the code has it, with the exact condition:

- An argument vector within ARG_MAX is refused if and only if one of its strings
  starts exactly at byte PAGE_SIZE (`Argv.FromUserTakes`, `Argv.FromUserRefuses`).
- `freepageref` fails an assertion if and only if a lower root has records in use
  but no page (`Pagerefs.Roots.Release`, `Pagerefs.ReleaseCanFail`). In no run of
  `kmalloc` and `kfree` does it while the threads and the records lost for want of a
  page are fewer than a root has (`HeapRuns.Run`); in one run with more it does
  (`HeapRuns.AssertionCanFail`).
- `sys_open_SHELL` breaks the reference counts if and only if the system table has
  room and no descriptor from 3 to OPEN_MAX - 2 is free (`FileTables.FileSystem.Open`,
  `FileTables.StaleCount`).
- Once no descriptor is left, every vnode opened has been closed if at every open the
  system table had room and a descriptor from 3 to OPEN_MAX - 2 was free
  (`FileRuns.Run`). In a run in which no open failed half-way, that is, with the last
  descriptor or past the table, it is so if and only if none was opened while the
  system table was full (`FileTables.AllClosed`, `FileRuns.LostForEver`). Over all runs
  the converse fails and there is an equation instead: vnode by vnode, opened is
  closed, lost or still held (`FileTables.AllAccounted`). After an open that failed
  half-way a vnode may never be closed (`FileRuns.NeverClosed`), or be closed after all
  (`FileRuns.ClosedAfterAll`).
- Rounding a request up to whole pages covers it if and only if the 32-bit sum does
  not wrap (`Blocks.PagesCover`).

The comments of the sources and the code disagree in one place that matters here:
`sys_open_SHELL` reports a full process table for the last usable descriptor and not
for a table without one. The model follows the code.

## Model

| member | source | states |
|---|---|---|
| AlgorithmD.TrialDigit | os161-base-2.0.3/common/gcc-millicode/qdivrem.c:182-210 | step D3: the two-by-one estimate and its correction loop compute the three-by-two digit quotient, capped at B - 1, for every base B |
| AlgorithmD.CorrectTrial | os161-base-2.0.3/common/gcc-millicode/qdivrem.c:205-210 | the correction loop alone, from any estimate that is not too small, ends at that quotient although rhat and the products are kept in one word |
| AlgorithmD.TrialDigitBounds | os161-base-2.0.3/common/gcc-millicode/qdivrem.c:185-192 | Theorems A and B of Knuth's section 4.3.1: the capped three-by-two quotient of the leading digits is the true quotient digit or exactly one more |
| AlgorithmD.TrialIsClose | os161-base-2.0.3/common/gcc-millicode/qdivrem.c:182-210 | the same for digit sequences: the trial digit for u[j..j+n] and a normalised v is right or one too big |
| AlgorithmD.RippleInPlace | os161-base-2.0.3/common/gcc-millicode/qdivrem.c:217-221 | a right-to-left pass with a running carry over u[j+1..j+n] in place equals the recursive description of such a pass and touches nothing else |
| AlgorithmD.BorrowingValue | os161-base-2.0.3/common/gcc-millicode/qdivrem.c:217-221 | the digits the wrapped-borrow loop leaves, together with its last borrow, are the exact difference u - qhat * v |
| AlgorithmD.MulSub | os161-base-2.0.3/common/gcc-millicode/qdivrem.c:217-223 | step D4 in place leaves the digits and the word of the description and nothing else changed |
| AlgorithmD.MulSubValue | os161-base-2.0.3/common/gcc-millicode/qdivrem.c:217-230 | step D4 is exact modulo B^(n+1), and the high half tested by D5 is nonzero if and only if the difference is negative |
| AlgorithmD.BorrowMeansOneTooBig | os161-base-2.0.3/common/gcc-millicode/qdivrem.c:224-230 | step D5: there is a borrow if and only if the trial digit was one too big |
| AlgorithmD.AddBack | os161-base-2.0.3/common/gcc-millicode/qdivrem.c:232-237 | step D6 in place leaves the digits of its description and nothing else changed |
| AlgorithmD.AddBackValue | os161-base-2.0.3/common/gcc-millicode/qdivrem.c:232-237 | step D6 is the exact sum up to a dropped multiple of B^(n+1) |
| AlgorithmD.CarryCancelsBorrow | os161-base-2.0.3/common/gcc-millicode/qdivrem.c:224-238 | after one add-back the dropped carry cancels the borrow, so what is left is the remainder itself |
| AlgorithmD.QuotientDigit | os161-base-2.0.3/common/gcc-millicode/qdivrem.c:182-239 | one turn of the do-loop returns the true quotient digit and leaves the remainder in u[j..j+n], for any base and any n of at least two |
| AlgorithmD.WindowDivided | os161-base-2.0.3/common/gcc-millicode/qdivrem.c:182-240 | one quotient digit more extends the division of the dividend's leading digits by one place |
| AlgorithmD.DivideWindow | os161-base-2.0.3/common/gcc-millicode/qdivrem.c:182-240 | the same in place, as one turn of the loop over j |
| AlgorithmD.ProgramD | os161-base-2.0.3/common/gcc-millicode/qdivrem.c:179-240 | the whole do-loop divides any m + n + 1 digits by any normalised n digits: quotient digits in q, remainder digits in place, all other elements unchanged |
| LongDivision.Shl | os161-base-2.0.3/common/gcc-millicode/qdivrem.c:265-279 | shl in place equals its digit-wise description and writes exactly len + 1 digits |
| LongDivision.ShlValue | os161-base-2.0.3/common/gcc-millicode/qdivrem.c:265-279 | shifting left multiplies by 2^d, counting what falls out on the left |
| LongDivision.Shr | os161-base-2.0.3/common/gcc-millicode/qdivrem.c:248-254 | the un-normalising loop in place equals its digit-wise description and clears the top digit |
| LongDivision.ShrValue | os161-base-2.0.3/common/gcc-millicode/qdivrem.c:248-254 | shifting right divides by 2^d when the top digit is zero |
| LongDivision.CountShift | os161-base-2.0.3/common/gcc-millicode/qdivrem.c:169-171 | the shift found is the one that brings the leading divisor digit into [B/2, B) |
| LongDivision.Normalise | os161-base-2.0.3/common/gcc-millicode/qdivrem.c:167-175 | step D1 scales dividend and divisor by the same 2^d, loses no digit and leaves a normalised divisor |
| LongDivision.Prepare | os161-base-2.0.3/common/gcc-millicode/qdivrem.c:167-181 | after step D1 the leading digits of the dividend are below the divisor, which is what the quotient loop needs |
| LongDivision.ScaledDivision | os161-base-2.0.3/common/gcc-millicode/qdivrem.c:167-175 | scaling both sides by S keeps the quotient and scales the remainder by S |
| LongDivision.Unnormalise | os161-base-2.0.3/common/gcc-millicode/qdivrem.c:247-254 | the remainder scaled by 2^d comes back as the remainder, in place |
| LongDivision.LongDivide | os161-base-2.0.3/common/gcc-millicode/qdivrem.c:163-258 | D1 to D8 on digit arrays of any m and n: quotient and remainder of the numbers the digits spell |
| LongDivision.ShortDivide | os161-base-2.0.3/common/gcc-millicode/qdivrem.c:125-149 | the unrolled one-digit divisor case returns quotient and remainder |
| LongDivision.CountDivisor | os161-base-2.0.3/common/gcc-millicode/qdivrem.c:123-150 | the loop over the divisor's leading zero digits finds its first nonzero digit |
| LongDivision.StripDividend | os161-base-2.0.3/common/gcc-millicode/qdivrem.c:157-158 | the loop over the dividend's leading zero digits stops with m >= 0 whenever the dividend is not below the divisor |
| LongDivision.DivideStripped | os161-base-2.0.3/common/gcc-millicode/qdivrem.c:152-262 | the digits after stripping are divided, and the four quotient and remainder digits are reassembled |
| LongDivision.QDivRem | os161-base-2.0.3/common/gcc-millicode/qdivrem.c:67-263 | for every dividend and divisor of two words of 2h bits: the quotient and the remainder, or the trap when the divisor is zero |
| SignedDivision.DivDi3 | os161-base-2.0.3/common/gcc-millicode/divdi3.c:44-62 | for every two representable numbers the quotient truncated toward zero; the one quotient that is not representable wraps to the most negative number; a zero divisor traps |
| SignedDivision.ModDi3 | os161-base-2.0.3/common/gcc-millicode/moddi3.c:45-62 | for every two representable numbers the remainder of truncated division, with the dividend's sign |
| SignedDivision.TruncatedUnique | os161-base-2.0.3/common/gcc-millicode/divdi3.c:44-62 | truncated division has one quotient and one remainder, so the two statements above determine the results |
| MulDi3.ThreeProducts | os161-base-2.0.3/common/gcc-millicode/muldi3.c:166-182 | the three-product identity of Knuth's section 4.3.3 |
| MulDi3.CarryTest | os161-base-2.0.3/common/gcc-millicode/muldi3.c:224-235 | the code's overflow test by comparison is exact |
| MulDi3.BorrowTest | os161-base-2.0.3/common/gcc-millicode/muldi3.c:219-223 | the code's borrow test by comparison is exact |
| MulDi3.AddShifted | os161-base-2.0.3/common/gcc-millicode/muldi3.c:224-232 | adding a word shifted by half a word is exact modulo four half-words |
| MulDi3.SubShifted | os161-base-2.0.3/common/gcc-millicode/muldi3.c:219-223 | subtracting a word shifted by half a word is exact modulo four half-words |
| MulDi3.HalfProducts | os161-base-2.0.3/common/gcc-millicode/muldi3.c:191-212 | the three half-word products and the sign of the middle one, with the absolute differences taken |
| MulDi3.LMulQ | os161-base-2.0.3/common/gcc-millicode/muldi3.c:183-241 | the exact double-word product of any two words although every intermediate wraps |
| MulDi3.ThreeProductsModulo | os161-base-2.0.3/common/gcc-millicode/muldi3.c:132-158 | modulo the double word the upper product drops out of the identity |
| MulDi3.MulDouble | os161-base-2.0.3/common/gcc-millicode/muldi3.c:124-158 | the product of two unsigned double words modulo the double word, small-number case included |
| MulDi3.MulDi3 | os161-base-2.0.3/common/gcc-millicode/muldi3.c:99-164 | the product of every two representable numbers modulo 2^(4h) in two's complement, the most negative number included |
| WaitsFor.WaitClosesCycleIffReached | os161-base-2.0.3/kern/thread/hangman.c:50-67 | in an acyclic graph a new wait closes a cycle if and only if the walk from the lock's holder meets the waiter |
| WaitsFor.StepAcyclic | os161-base-2.0.3/kern/thread/hangman.c:109-182 | every step that does not panic keeps the graph acyclic |
| WaitsFor.RunAcyclic | os161-base-2.0.3/kern/thread/hangman.c:109-182 | over every run that does not panic the graph stays acyclic |
| WaitsFor.RunGraph | os161-base-2.0.3/kern/thread/hangman.c:109-182 | after any run that does not panic the graph is the one the calls spell out: who holds a lockable acquired it last and has not released it since, what an actor waits for it last waited for and has not acquired since |
| WaitsFor.RunDetectsExactly | os161-base-2.0.3/kern/thread/hangman.c:50-182 | after any run from the empty graph each of the five panics comes if and only if the calls so far say so; a wait is refused as a deadlock exactly when, with it, the calls leave an actor waiting for itself: no false alarm, none missed |
| WaitsFor.RingIsDeadlock | os161-base-2.0.3/kern/thread/hangman.c:50-67 | a ring of actors, each waiting for what the next one holds, is a deadlock in that sense |
| WaitsFor.DeadlockHasRing | os161-base-2.0.3/kern/thread/hangman.c:50-67 | and every such deadlock has a ring |
| WaitsFor.RunNotDeadlocked | os161-base-2.0.3/kern/thread/hangman.c:109-182 | no run that does not panic leaves a ring |
| WaitsFor.WalkOn | os161-base-2.0.3/kern/thread/hangman.c:57-66 | in an acyclic graph the walk never visits an actor twice, which is why it ends |
| Hangman.Detector.Check | os161-base-2.0.3/kern/thread/hangman.c:50-67 | the pointer walk terminates and reports a hit if and only if the target is on the chain of holders and waits |
| Hangman.Detector.Report | os161-base-2.0.3/kern/thread/hangman.c:85-92 | the actors printed after a hit form the chain from the lock's holder to the waiter |
| Hangman.Detector.RecordsAreCalls | os161-base-2.0.3/kern/thread/hangman.c:109-182 | a_waiting and l_holding of every actor and lockable are what the calls so far say, and no ring of actors waits for one another |
| Hangman.Detector.Wait | os161-base-2.0.3/kern/thread/hangman.c:109-129 | it panics, and how, exactly when the calls so far say so; otherwise the records are those of one call more |
| Hangman.Detector.Acquire | os161-base-2.0.3/kern/thread/hangman.c:131-157 | the same for acquiring, with both of its panics |
| Hangman.Detector.Release | os161-base-2.0.3/kern/thread/hangman.c:159-182 | the same for releasing, with both of its panics |
| Blocks.BlockType | os161-base-2.0.3/kern/vm/kmalloc.c:847-868 | the smallest size class that holds the request, or the panic exactly when none does |
| Blocks.FitsUnique | os161-base-2.0.3/kern/vm/kmalloc.c:847-868 | that class is unique |
| Blocks.SlotTest | os161-base-2.0.3/kern/vm/kmalloc.c:1092-1097 | the remainder test of kfree accepts exactly the addresses where a block starts |
| Blocks.SlotCount | os161-base-2.0.3/kern/vm/kmalloc.c:990-1006 | distinct blocks of one page are at most PAGE_SIZE / size, and exactly that many only when they are all of them |
| Blocks.PagesCover | os161-base-2.0.3/kern/vm/kmalloc.c:1185-1191 | rounding up to whole pages covers the request if and only if the 32-bit sum does not wrap |
| Pagerefs.Roots.FindClear | os161-base-2.0.3/kern/vm/kmalloc.c:258-298 | the search finds the first clear bit of all bitmaps, or nothing exactly when every bit is set; its assertion never fails |
| Pagerefs.Roots.ClearInRoot | os161-base-2.0.3/kern/vm/kmalloc.c:270-292 | the two inner loops over words and bits find the first clear bit of a root whose count says there is one |
| Pagerefs.Roots.Reserve | os161-base-2.0.3/kern/vm/kmalloc.c:258-298 | the first record not in use is marked, and the count stays the number of bits set; below a root with a record in use, a root without a page stays full |
| Pagerefs.Roots.SupplyPage | os161-base-2.0.3/kern/vm/kmalloc.c:218-251 | a root without a page gets the one obtained; a root that got one meanwhile keeps that, and the one obtained goes back |
| Pagerefs.RecordDistance | os161-base-2.0.3/kern/vm/kmalloc.c:319-324 | the pointer difference, as an unsigned number, is below the records of a page only for the record's own page, wherever the pages lie |
| Pagerefs.Roots.LowerRootFull | os161-base-2.0.3/kern/vm/kmalloc.c:258-298 | a root without its page, below a record in use, has all its records in use |
| Pagerefs.Roots.Release | os161-base-2.0.3/kern/vm/kmalloc.c:300-337 | the record is found by pointer arithmetic and unmarked; the assertion about roots without a page fails if and only if a lower root has marked records and no page |
| Pagerefs.ReleaseCanFail | os161-base-2.0.3/kern/vm/kmalloc.c:278-316 | a run after which that assertion does fail: the first root fills up while no page can be had for it |
| HeapPages.InvalidWhenNoneFree | os161-base-2.0.3/kern/vm/kmalloc.c:922-941 | freelist_offset is INVALID_OFFSET if and only if nfree is zero |
| HeapPages.PopBlock | os161-base-2.0.3/kern/vm/kmalloc.c:922-941 | taking the head of a free list keeps every page split exactly into free and live blocks, and none of the assertions there fails |
| HeapPages.PushBlock | os161-base-2.0.3/kern/vm/kmalloc.c:1109-1138 | putting a live block back keeps the split, and nfree stays within the page |
| HeapPages.AddPage | os161-base-2.0.3/kern/vm/kmalloc.c:989-1014 | a formatted new page can be added without disturbing the others |
| HeapPages.DropPage | os161-base-2.0.3/kern/vm/kmalloc.c:1140-1143 | a wholly free page holds no live block, so its record can go |
| HeapPages.LiveDisjoint | os161-base-2.0.3/kern/vm/kmalloc.c:873-1018 | live blocks are at least as large as asked for and do not overlap |
| HeapPages.LiveAvoidsFree | os161-base-2.0.3/kern/vm/kmalloc.c:873-1160 | no byte of a live block belongs to a free block |
| HeapPages.WriteInside | os161-base-2.0.3/kern/vm/kmalloc.c:873-1160 | a client may write anything anywhere inside its block without damaging the heap |
| HeapPages.WhollyFreeIff | os161-base-2.0.3/kern/vm/kmalloc.c:1137-1148 | nfree equals the page's capacity if and only if no live block belongs to the page |
| KernelHeap.ThreadPage | os161-base-2.0.3/kern/vm/kmalloc.c:989-1009 | the loop that threads a new page's free list leaves an acyclic list of all its blocks, starting at the last one |
| KernelHeap.KHeap.DoAlloc | os161-base-2.0.3/kern/vm/kmalloc.c:922-953 | the block handed out was not live before and is now, on that page |
| KernelHeap.KHeap.FindPage | os161-base-2.0.3/kern/vm/kmalloc.c:914-922 | the search of a size list finds its first page with a free block, or none exactly when all are full |
| KernelHeap.RoomOnSizeList | os161-base-2.0.3/kern/vm/kmalloc.c:914-922 | that is the first page of all with a free block of the right class: looking at one size list is enough |
| KernelHeap.RoomSays | os161-base-2.0.3/kern/vm/kmalloc.c:914-922 | there is no such page exactly when every page of that class is full |
| KernelHeap.KHeap.TryAlloc | os161-base-2.0.3/kern/vm/kmalloc.c:908-956 | the first critical section: a new live block on the first page of the class with room, or no page of the class has room and nothing has changed |
| KernelHeap.KHeap.AllocPageref | os161-base-2.0.3/kern/vm/kmalloc.c:258-298 | the first record not in use, with a page for its root; none exactly when all are in use or that root has no page and gets none |
| KernelHeap.KHeap.FormatPage | os161-base-2.0.3/kern/vm/kmalloc.c:989-1014 | a new page goes on both lists, wholly free |
| KernelHeap.KHeap.AddPageAndAlloc | os161-base-2.0.3/kern/vm/kmalloc.c:989-1018 | the second critical section: the new page joins the heap with blocks of the right class, its first block is live, and memory off that page is unchanged |
| KernelHeap.KHeap.ClientWrite | os161-base-2.0.3/kern/vm/kmalloc.c:873-1018 | the whole heap invariant survives any store into a live block |
| KernelHeap.KHeap.FindOwner | os161-base-2.0.3/kern/vm/kmalloc.c:1072-1085 | the record of the page an address lies on, or none exactly when it lies on no heap page |
| KernelHeap.KHeap.Locate | os161-base-2.0.3/kern/vm/kmalloc.c:1072-1097 | an address is off the heap, misplaced (the panic) or the start of a block, each exactly when it is |
| KernelHeap.FillDeadbeef | os161-base-2.0.3/kern/vm/kmalloc.c:43-53 | every word of the block is overwritten and nothing else |
| KernelHeap.KHeap.PushFree | os161-base-2.0.3/kern/vm/kmalloc.c:1105-1139 | the block is free again, every other live block stays, and the page is full exactly when no live block is left on it |
| KernelHeap.KHeap.UnlinkBoth | os161-base-2.0.3/kern/vm/kmalloc.c:822-845 | remove_lists takes the record off its size list and off the list of all pages, and keeps the order of the others |
| KernelHeap.KHeap.TakeOffLists | os161-base-2.0.3/kern/vm/kmalloc.c:1140-1143 | a page that has become wholly free leaves the heap, and no other page does |
| KernelHeap.KHeap.ReleaseBlock | os161-base-2.0.3/kern/vm/kmalloc.c:1105-1143 | the block is no longer live, and its page leaves the heap if and only if that was its last live block |
| KernelHeap.KHeap.FreeBlock | os161-base-2.0.3/kern/vm/kmalloc.c:1105-1160 | the page goes back only with no live block on it; lists, bitmap and data pages change by that page and its record, or not at all, and the assertion of the bitmap fails if and only if Roots.Release says |
| KernelHeap.KHeap.Kfree | os161-base-2.0.3/kern/vm/kmalloc.c:1208-1223 | null is ignored, an address off the heap is freed as whole pages if aligned, a block start is freed, anything else panics; live blocks, lists, bitmap and data pages change by exactly that; the bitmap's assertion fails if and only if the last block of a page goes while a lower root has marked records and no page; a freed block is filled with 0xdeadbeef after its link and memory outside it is unchanged |
| KernelHeap.KHeap.Kmalloc | os161-base-2.0.3/kern/vm/kmalloc.c:1165-1206 | requests of LARGEST_SUBPAGE_SIZE and more become whole pages; otherwise, if a page of the right class has a free block, the first such page serves the request and lists, pages, records and memory stay as they are; if not, a new page with the first unused record does, and memory off that page stays as it is; the call fails exactly when no page has room and either there is no page to be had or no record, and then a record may stay marked, exactly when its root has no page |
| KernelHeap.KHeap.EmptyWhenAllFreed | os161-base-2.0.3/kern/vm/kmalloc.c:1137-1148 | once every block is freed both kinds of list are empty and no data page is in hand |
| HeapRuns.System.RootsSound | os161-base-2.0.3/kern/vm/kmalloc.c:300-316 | with fewer records in flight or lost than a root has, no root below a listed record has marked records and no page |
| HeapRuns.System.Malloc | os161-base-2.0.3/kern/vm/kmalloc.c:875-967 | a thread goes on to wait for a page exactly when no page of the class has a free block; otherwise it gets a new block on the first page that has one |
| HeapRuns.System.Search | os161-base-2.0.3/kern/vm/kmalloc.c:908-956 | the same of its search |
| HeapRuns.System.PageArrives | os161-base-2.0.3/kern/vm/kmalloc.c:967-988 | with the page the thread takes the first record not in use, and it fails exactly when memory is out or every record is in use |
| HeapRuns.System.RecordPageArrives | os161-base-2.0.3/kern/vm/kmalloc.c:218-251 | the root gets the page unless it got one meanwhile; the allocation fails, and its record is lost, if and only if there is neither |
| HeapRuns.System.Link | os161-base-2.0.3/kern/vm/kmalloc.c:989-1018 | the record and the page the thread held go on the lists, the caller gets a block it did not have, and every block any caller has keeps its contents |
| HeapRuns.System.Free | os161-base-2.0.3/kern/vm/kmalloc.c:1026-1160 | the assertion about roots fails only with as many records in flight or lost as a root has, and exactly when Roots.Release says; otherwise all books stay right; every other block keeps its contents |
| HeapRuns.BooksLink | os161-base-2.0.3/kern/vm/kmalloc.c:989-1014 | a record in flight becomes a listed one, and its page a data page: both are counted once before and after |
| HeapRuns.BooksLose | os161-base-2.0.3/kern/vm/kmalloc.c:284-290 | a record whose allocation fails is lost, and its page goes back |
| HeapRuns.BooksFree | os161-base-2.0.3/kern/vm/kmalloc.c:1137-1148 | a record that comes off the lists leaves the bitmap, and its page goes back |
| HeapRuns.FlightCount | os161-base-2.0.3/kern/vm/kmalloc.c:218-251 | there are no more records in flight than threads |
| HeapRuns.OwnedApart | os161-base-2.0.3/kern/vm/kmalloc.c:873-1018 | the blocks callers have, with the sizes they asked for, do not overlap |
| HeapRuns.AllGoneBack | os161-base-2.0.3/kern/vm/kmalloc.c:1137-1148 | when every block is freed and no thread is in kmalloc, every page has gone back but those of records, and every record is free but those lost |
| HeapRuns.Perform | os161-base-2.0.3/kern/vm/kmalloc.c:218-1160 | one step of one thread, wherever kmalloc drops its lock, keeps all books right and takes that thread on; it fails only with as many records in flight or lost as a root has |
| HeapRuns.Run | os161-base-2.0.3/kern/vm/kmalloc.c:218-1160 | every run of any number of threads, interleaved wherever kmalloc drops its lock: no two blocks overlap; every page and every record is accounted for; the assertion about roots can fail only when the threads and the records lost make up a root, and none is lost while pages of records can be had |
| HeapRuns.AssertionCanFail | os161-base-2.0.3/kern/vm/kmalloc.c:278-316 | a run of kmalloc and kfree in which it does fail: no page can be had for the first root until all its records are lost, then one can for the second |
| Threads.StepSafe | os161-base-2.0.3/kern/thread/thread.c:298-956 | no enabled step can fail inside: no empty victims list is popped, no zombie destroyed is current |
| Threads.StepInv | os161-base-2.0.3/kern/thread/thread.c:450-956 | every step of every CPU keeps the invariant over lists, CPUs and threads |
| Threads.ReapInv | os161-base-2.0.3/kern/thread/thread.c:296-307 | destroying a zombie keeps it |
| Threads.BehaviourInv | os161-base-2.0.3/kern/thread/thread.c:450-956 | the invariant holds in every state of every interleaving of any number of CPUs |
| Threads.BootReachable | os161-base-2.0.3/kern/thread/thread.c:372-443 | there are runs on any number of CPUs, each starting in the thread its CPU was created with, and a migration can start on any CPU |
| Threads.OneCpuPerThread | os161-base-2.0.3/kern/thread/thread.c:562-664 | no thread is current on two CPUs and no stack is in use on two |
| Threads.OnePlace | os161-base-2.0.3/kern/thread/thread.c:562-728 | a thread is on at most one list, once; one on no list is its CPU's current thread; a current thread is on a list only while its CPU chooses or idles |
| Threads.QueuedIsSaved | os161-base-2.0.3/kern/thread/thread.c:641-664 | a queued thread's context is saved, unless the CPU it is queued on is still on its stack |
| Threads.ReapedIsUnused | os161-base-2.0.3/kern/thread/thread.c:296-307 | the zombie destroyed is on no CPU's stack and current nowhere |
| Threads.VictimSaved | os161-base-2.0.3/kern/thread/thread.c:882-929 | a victim other than the current thread is saved and in use nowhere, so it may run elsewhere |
| Threads.MigrationKeepsCurrent | os161-base-2.0.3/kern/thread/thread.c:853-956 | a migration changes nothing of its own CPU's current thread and creates or destroys no thread |
| Threads.MigrationConserves | os161-base-2.0.3/kern/thread/thread.c:853-956 | with whatever stale counts, every step of a migration keeps each thread queued or not queued |
| ThreadRuns.SwitchEffect | os161-base-2.0.3/kern/thread/thread.c:592-628 | thread_switch puts the current thread at the end of the list asked for, in its state, and changes no other list, thread or CPU; a yield with nobody waiting changes nothing |
| ThreadRuns.PickEffect | os161-base-2.0.3/kern/thread/thread.c:630-664 | the next thread is the first of the CPU's queue, and the CPU idles exactly when there is none |
| ThreadRuns.ForkEffect | os161-base-2.0.3/kern/thread/thread.c:494-552 | a new thread, ready, at the end of its CPU's queue, and nothing else |
| ThreadRuns.WakeEffect | os161-base-2.0.3/kern/thread/thread.c:1024-1080 | a waker takes the first sleeper of the channel, and queues those it took, first come first served, each on its own CPU |
| ThreadRuns.PickedRuns | os161-base-2.0.3/kern/thread/thread.c:664-727 | a CPU that has picked a thread is a number of its own steps from running it, each brings it one nearer and no step of another CPU takes it further away |
| ThreadRuns.MovesAt | os161-base-2.0.3/kern/thread/thread.c:296-1080 | in every run a thread leaves a list, or joins one, only in nine ways: off a channel only as its first, by a waker of that channel; onto one only as a CPU's current thread that sleeps on it; off a run queue as its first, to run, or to be migrated |
| ThreadRuns.ZombieExited | os161-base-2.0.3/kern/thread/thread.c:592-628 | in every run a thread on a CPU's zombie list has exited there as the current thread, and is on it since |
| ThreadRuns.GoneExited | os161-base-2.0.3/kern/thread/thread.c:296-307 | a thread that is gone has exited as some CPU's current thread |
| ThreadRuns.ComesBack | os161-base-2.0.3/kern/thread/thread.c:562-1080 | over every run: a thread that yields, or is forked, is picked from a queue after nothing but migrations; one that sleeps on w is first taken off w and queued by the same waker; one that exits is destroyed by its own CPU and by nothing else |
| ThreadRuns.ReapedBeforeRunning | os161-base-2.0.3/kern/thread/thread.c:296-307 | in every run at most one zombie waits on a CPU, and none while the CPU runs thread code |
| ThreadRuns.ExitedIsGone | os161-base-2.0.3/kern/thread/thread.c:664-811 | by the time its CPU runs thread code again, a thread that exited there has been destroyed |
| ThreadRuns.SleepersInOrder | os161-base-2.0.3/kern/thread/thread.c:1006-1080 | nobody is taken off a wait channel before a thread that went to sleep on it earlier |
| ThreadRuns.PickedInOrder | os161-base-2.0.3/kern/thread/thread.c:630-664 | nobody is picked from a run queue before a thread that was queued earlier and is still on it |
| Balancing.ShareCovers | os161-base-2.0.3/kern/thread/thread.c:874 | the share is the least number that, given to every CPU, covers the total |
| Balancing.RoomForSurplus | os161-base-2.0.3/kern/thread/thread.c:874-886 | once the surplus is off this CPU's queue the other queues have room for all of it |
| Balancing.RunQueues.CountQueues | os161-base-2.0.3/kern/thread/thread.c:862-872 | the two counts are the length of this queue and of all queues |
| Balancing.RunQueues.TakeVictims | os161-base-2.0.3/kern/thread/thread.c:879-886 | the victims are the tail of this queue in order |
| Balancing.RunQueues.DealTo | os161-base-2.0.3/kern/thread/thread.c:893-938 | one CPU is filled up to the share and not beyond, t_cpu follows the threads moved, and the current thread is put last instead |
| Balancing.RunQueues.DealAll | os161-base-2.0.3/kern/thread/thread.c:888-939 | of all victims only the current thread can be left over |
| Balancing.RunQueues.PutBack | os161-base-2.0.3/kern/thread/thread.c:946-952 | the leftovers return to the tail of this queue |
| Balancing.RunQueues.ConsiderMigration | os161-base-2.0.3/kern/thread/thread.c:853-956 | run by itself from an overfull queue it leaves this CPU exactly its share, plus one if the current thread was a victim, lifts no other queue above the share, and conserves every thread |
| Ipl.Thread.Boot | os161-base-2.0.3/kern/thread/thread.c:146-148 | a CPU's first thread starts raised once, for its own level |
| Ipl.Thread.constructor | os161-base-2.0.3/kern/thread/thread.c:534-539 | a forked thread starts raised exactly twice |
| Ipl.Cpu.Splx | os161-base-2.0.3/kern/thread/spl.c:126-160 | the level is set and the old one returned, and the raises stay spinlocks plus own level, in any nesting |
| Ipl.Cpu.Acquire | os161-base-2.0.3/kern/thread/spinlock.c:75-98 | a panic exactly when the CPU holds the lock already; otherwise it spins, with one spinlock and one raise more counted before it has the lock |
| Ipl.Cpu.Acquired | os161-base-2.0.3/kern/thread/spinlock.c:99-122 | the spin ends with the lock held and the counts unchanged |
| Ipl.Cpu.Release | os161-base-2.0.3/kern/thread/spinlock.c:124-142 | one lock and one raise less, in any order of release |
| Ipl.Cpu.StartSwitch | os161-base-2.0.3/kern/thread/thread.c:570-588 | a switch begins with the level saved and raised, spinning for the run-queue lock |
| Ipl.Cpu.Park | os161-base-2.0.3/kern/thread/thread.c:588-622 | the thread is off with exactly two raises, only the run-queue lock held and the wait channel unlocked |
| Ipl.Cpu.StayOn | os161-base-2.0.3/kern/thread/thread.c:590-595 | when nothing else is ready the thread goes on at its own level with no lock held |
| Ipl.Cpu.GoIdle | os161-base-2.0.3/kern/thread/thread.c:644-647 | an idle CPU holds no lock |
| Ipl.Cpu.Relock | os161-base-2.0.3/kern/thread/thread.c:648 | with the lock back the thread is raised exactly twice again, whatever handlers did meanwhile |
| Ipl.Cpu.SwitchTo | os161-base-2.0.3/kern/thread/thread.c:651-664 | the lock passes from the old thread to the next, its own included, and the counts still agree |
| Ipl.Cpu.SwitchIn | os161-base-2.0.3/kern/thread/thread.c:711-728 | in the thread switched to, the lock is released and the level is the one it had asked for |
| Ipl.Cpu.Interrupt | os161-base-2.0.3/kern/arch/mips/locore/trap.c:153-187 | an interrupt finds the recorded state it asserts and raises it once |
| Ipl.Cpu.Return | os161-base-2.0.3/kern/arch/mips/locore/trap.c:189-198 | the assertions at the end of a handler hold when it holds no spinlock, whatever switches happened in it, and interrupts are on again |
| Ipl.Machine.constructor | os161-base-2.0.3/kern/thread/thread.c:164-253 | CPUs just created, each with its first thread |
| Ipl.Machine.Fork | os161-base-2.0.3/kern/thread/thread.c:494-548 | a new thread joins, off every CPU and raised exactly twice |
| Ipl.Machine.Acquire | os161-base-2.0.3/kern/thread/spinlock.c:75-98 | over several CPUs, beginning to take a spinlock, in a thread or in a handler of an idle CPU, keeps every CPU's counts right |
| Ipl.Machine.Acquired | os161-base-2.0.3/kern/thread/spinlock.c:99-122 | the same for the end of the spin |
| Ipl.Machine.Release | os161-base-2.0.3/kern/thread/spinlock.c:124-142 | the same for giving one back |
| Ipl.Machine.SetLevel | os161-base-2.0.3/kern/thread/spl.c:126-160 | the same for a change of level, which becomes the level the thread counts on |
| Ipl.Machine.SwitchTo | os161-base-2.0.3/kern/thread/thread.c:651-664 | a CPU may take any thread that no other CPU runs; that it is raised exactly twice is proved, not assumed |
| Ipl.Machine.SwitchIn | os161-base-2.0.3/kern/thread/thread.c:711-728 | it goes on at the level it had asked for, which no step of a switch changes |
| IplRuns.PerformLock | os161-base-2.0.3/kern/thread/spinlock.c:75-142 | beginning to spin, getting the lock and giving it back each keep all counts right, and panic exactly when the CPU holds the lock it asks for |
| IplRuns.PerformSwitch | os161-base-2.0.3/kern/thread/thread.c:560-728 | every step of a switch, idling and waking included, takes the CPU to the next stage with the thread it has or the one it took, and keeps all counts right and every thread's level |
| IplRuns.PerformLevel | os161-base-2.0.3/kern/arch/mips/locore/trap.c:153-198 | so does every interrupt and every change of level, and no assertion of the handler's end fails |
| IplRuns.Run | os161-base-2.0.3/kern/thread/thread.c:560-728 | every run of any number of CPUs from boot, other CPUs and handlers acting between any two steps of a switch: the only panic is that of a CPU acquiring a lock it holds; no lock has two holders; every thread off a CPU is raised exactly twice and every running one is at the level it asked for, with interrupts on exactly when it holds no spinlock and asked for them |
| IplRuns.ValidIsSound | os161-base-2.0.3/kern/thread/thread.c:560-728 | what that says of one state, from the counts |
| ThreadList.InsertAfterNode | os161-base-2.0.3/kern/thread/threadlist.c:105-120 | the four link updates give the list with the node after the given one |
| ThreadList.InsertBeforeNode | os161-base-2.0.3/kern/thread/threadlist.c:125-140 | the four link updates give the list with the node before the given one |
| ThreadList.RemoveNode | os161-base-2.0.3/kern/thread/threadlist.c:145-157 | the list without the node, whose own links are cleared |
| ThreadList.List.constructor | os161-base-2.0.3/kern/thread/threadlist.c:60-72 | an empty list between its sentinels |
| ThreadList.List.IsEmpty | os161-base-2.0.3/kern/thread/threadlist.c:91-97 | true exactly when no thread is on the list |
| ThreadList.List.AddHead | os161-base-2.0.3/kern/thread/threadlist.c:162-170 | the thread is first and the rest follows in order, with the count |
| ThreadList.List.AddTail | os161-base-2.0.3/kern/thread/threadlist.c:172-180 | the thread is last after the others in order, with the count |
| ThreadList.List.RemHead | os161-base-2.0.3/kern/thread/threadlist.c:182-198 | the first thread leaves the list with its links cleared, or nothing when it is empty |
| ThreadList.List.RemTail | os161-base-2.0.3/kern/thread/threadlist.c:200-216 | the last thread leaves the list with its links cleared, or nothing when it is empty |
| ThreadList.List.InsertAfter | os161-base-2.0.3/kern/thread/threadlist.c:218-224 | the thread is just after the i-th one |
| ThreadList.List.InsertBefore | os161-base-2.0.3/kern/thread/threadlist.c:226-232 | the thread is just before the i-th one |
| ThreadList.List.Remove | os161-base-2.0.3/kern/thread/threadlist.c:234-240 | the list without its i-th thread |
| Semaphores.StepInv | os161-base-2.0.3/kern/thread/synch.c:88-135 | every step of P and V keeps the invariant |
| Semaphores.BehaviourInv | os161-base-2.0.3/kern/thread/synch.c:88-135 | the invariant holds in every interleaving, and while somebody sleeps the count is at most the number of woken threads yet to recheck |
| Semaphores.NobodyStranded | os161-base-2.0.3/kern/thread/synch.c:101-120 | with a unit, a sleeper and the spinlock free, some woken thread can go on |
| Semaphores.TakeNeverFails | os161-base-2.0.3/kern/thread/synch.c:114-118 | a thread past the test finds a positive count |
| Semaphores.PTakesOne | os161-base-2.0.3/kern/thread/synch.c:88-120 | in every interleaving a P that has returned has taken one from the count, once, and done nothing else to it |
| Semaphores.VAddsOne | os161-base-2.0.3/kern/thread/synch.c:123-135 | a V that has returned has added one, once |
| Semaphores.Conserved | os161-base-2.0.3/kern/thread/synch.c:88-135 | in every interleaving the count, the Ps returned and the units taken by those that have not are the initial count, the Vs returned and the units added by those that have not |
| Semaphores.FirstAsleepFirstWoken | os161-base-2.0.3/kern/thread/synch.c:101-132 | nobody is woken before a thread that fell asleep earlier |
| Semaphores.MovesOn | os161-base-2.0.3/kern/thread/synch.c:88-135 | each step of its own brings a thread nearer to its return or to sleep, and others only ever wake it |
| Semaphores.HolderGoesOn | os161-base-2.0.3/kern/thread/synch.c:88-135 | the holder of the spinlock can go on, but for a V that would overflow the count |
| LocksAndCvs.StepInv | os161-base-2.0.3/kern/thread/synch.c:193-406 | every step of lock_acquire, lock_release, cv_wait, cv_signal and cv_broadcast keeps the invariant |
| LocksAndCvs.BehaviourInv | os161-base-2.0.3/kern/thread/synch.c:193-406 | the invariant holds in every interleaving |
| LocksAndCvs.MutualExclusion | os161-base-2.0.3/kern/thread/synch.c:193-255 | at most one thread owns the lock, with newcomers overtaking woken waiters |
| LocksAndCvs.FreeLockMovesOn | os161-base-2.0.3/kern/thread/synch.c:193-255 | while the lock is free and somebody sleeps for it, a woken thread is due to recheck, and it or the spinlock's holder can go on |
| LocksAndCvs.SignalSeesEveryWaiter | os161-base-2.0.3/kern/thread/synch.c:325-381 | a signaller about to wake finds on the channel exactly the threads that gave up the lock in cv_wait and were not woken |
| LocksAndCvs.SignalEffect | os161-base-2.0.3/kern/thread/synch.c:358-406 | a signal wakes the first of them if there are any and moves no other thread, a broadcast all |
| LocksAndCvs.AcquireReturns | os161-base-2.0.3/kern/thread/synch.c:193-228 | in every interleaving lock_acquire returns with the lock, which it got once |
| LocksAndCvs.ReleaseReturns | os161-base-2.0.3/kern/thread/synch.c:230-255 | lock_release, by itself or in cv_wait, has given the lock up once, and of the threads asleep for it the first, and no other, has left the channel |
| LocksAndCvs.WaitReturns | os161-base-2.0.3/kern/thread/synch.c:325-356 | in every interleaving cv_wait returns with the lock; in between the thread gave it up once, slept on the channel once, was taken off it by another thread's signal or broadcast, and got the lock again, in this order |
| LocksAndCvs.NoLostWakeup | os161-base-2.0.3/kern/thread/synch.c:325-406 | a thread that has given the lock up in cv_wait, and was not taken off the channel since, is on it whenever somebody comes to wake |
| LocksAndCvs.SignalReturns | os161-base-2.0.3/kern/thread/synch.c:358-406 | cv_signal and cv_broadcast keep the lock throughout, and of the threads on the channel when they started the first, or every one, has left it |
| LocksAndCvs.FirstAsleepFirstWoken | os161-base-2.0.3/kern/thread/synch.c:193-406 | of two threads asleep for the lock, or on the condition variable, the later one is not woken before the other |
| LocksAndCvs.MovesOn | os161-base-2.0.3/kern/thread/synch.c:193-406 | each step of its own brings a thread nearer to its return or to sleep |
| LocksAndCvs.OthersStep | os161-base-2.0.3/kern/thread/synch.c:193-406 | steps of others leave what a thread holds, and move it on only where it sleeps |
| CopyInOut.CopyCheckNonempty | os161-base-2.0.3/kern/vm/copyinout.c:116-143 | a region that is not empty is refused if and only if it starts above user space or wraps; the length allowed is its part in user space |
| CopyInOut.CopyCheckEmpty | os161-base-2.0.3/kern/vm/copyinout.c:116-143 | an empty region is refused, except at address zero, where all of user space is allowed |
| CopyInOut.CopyInPointer | os161-base-2.0.3/kern/vm/copyinout.c:145-179 | a pointer is read if and only if its four bytes are mapped user memory, and it is the one they encode |
| CopyInOut.CopyInStr | os161-base-2.0.3/kern/vm/copyinout.c:258-288 | the exact outcome for whatever lies in user memory: a whole string within limit and user space is copied with its terminator; ENAMETOOLONG if and only if the whole limit is mapped user memory without a zero; EFAULT otherwise |
| CopyInOut.FetchStr | os161-base-2.0.3/kern/vm/copyinout.c:233-255 | copystr from user memory: the same three outcomes, each exactly |
| CopyInOut.UserSpace.CopyOutPointer | os161-base-2.0.3/kern/vm/copyinout.c:181-215 | a pointer is written if and only if its destination is mapped user memory, and nothing else changes |
| CopyInOut.UserSpace.CopyOutStr | os161-base-2.0.3/kern/vm/copyinout.c:290-321 | what starts in the buffer is written with its terminator if and only if it ends within the limit and its destination is mapped user memory; ENAMETOOLONG if and only if it does not end and all of the limit could be written; nothing else changes |
| CopyInOut.UserSpace.StoreStr | os161-base-2.0.3/kern/vm/copyinout.c:233-255 | copystr to user memory: the three outcomes, each exactly |
| CopyInOut.StringUnique | os161-base-2.0.3/kern/vm/copyinout.c:227-255 | memory holds at most one terminated string at an address |
| Argv.ArgvUnique | os161-base-2.0.3/kern/syscall/exec.c:73-111 | memory determines the vector it holds |
| Argv.ArgBuf.constructor | os161-base-2.0.3/kern/syscall/exec.c:200-210 | an empty buffer of the given size |
| Argv.ArgBuf.CopyIn | os161-base-2.0.3/kern/syscall/exec.c:73-111 | for whatever lies in user memory: every slot of the vector is taken in turn up to the null, or up to the first that is refused, with the error that slot gives |
| Argv.ArgBuf.CopyInOne | os161-base-2.0.3/kern/syscall/exec.c:80-108 | one turn of the loop: the exact error for the pointer and its string, or one string more, or the end at the null |
| Argv.ArgBuf.Append | os161-base-2.0.3/kern/syscall/exec.c:96-107 | one string more in the buffer, or the buffer unchanged and the exact error |
| Argv.FetchSlot | os161-base-2.0.3/kern/syscall/exec.c:96-107 | what copyinstr makes of a pointer depends only on the string there, or on how far the bytes go on without one |
| Argv.StoppedUnique | os161-base-2.0.3/kern/syscall/exec.c:73-111 | memory determines what is read and with which error it ends |
| Argv.StoppedVerdict | os161-base-2.0.3/kern/syscall/exec.c:73-111 | a vector that lies wholly in user space is taken or refused as Verdict says |
| Argv.StoppedReadable | os161-base-2.0.3/kern/syscall/exec.c:73-111 | what was read to its null is a vector that lies wholly in user space |
| Argv.VerdictIs | os161-base-2.0.3/kern/syscall/exec.c:73-111 | a vector fits if and only if its strings with terminators do, and is refused with EFAULT instead of E2BIG if and only if a string starts exactly at the buffer's end |
| Argv.FromUser | os161-base-2.0.3/kern/syscall/exec.c:246-285 | for whatever lies in user memory: the outcome of the small buffer, or that of the large one exactly when the small one gave E2BIG; for every vector in user space the verdict of the two attempts |
| Argv.FromUserTakes | os161-base-2.0.3/kern/syscall/exec.c:246-285 | a vector is taken if and only if it fits ARG_MAX and no string starts at byte PAGE_SIZE |
| Argv.FromUserRefuses | os161-base-2.0.3/kern/syscall/exec.c:246-285 | run on a memory that holds a given vector within ARG_MAX, it returns EFAULT |
| Argv.StackSpace | os161-base-2.0.3/kern/syscall/exec.c:144-149 | the 32-bit stack addresses are the unbounded ones, or the pointers end up above user space |
| Argv.WithinStack | os161-base-2.0.3/kern/syscall/exec.c:136-149 | strings and pointers are aligned, disjoint and between the new stack pointer and the old |
| Argv.ArgBuf.PutPointer | os161-base-2.0.3/kern/syscall/exec.c:155-162 | the next pointer is written if and only if its place is mapped user memory |
| Argv.ArgBuf.PutString | os161-base-2.0.3/kern/syscall/exec.c:164-173 | its string is written after the others if and only if its place is mapped user memory |
| Argv.ArgBuf.LayOut | os161-base-2.0.3/kern/syscall/exec.c:151-182 | all pointers, strings and the null are written if and only if the whole region is mapped user memory |
| Argv.ArgBuf.PutNull | os161-base-2.0.3/kern/syscall/exec.c:174-182 | with the null in place the vector lies in user memory and everything outside it is unchanged |
| Argv.ArgBuf.CopyOut | os161-base-2.0.3/kern/syscall/exec.c:123-189 | success if and only if there is room; then argc, the stack pointer and a vector of identical strings in order |
| Argv.PassArguments | os161-base-2.0.3/kern/syscall/exec.c:73-189 | success exactly when a vector lies in the caller's memory that is taken and for which the new stack has mapped room; then it lies on the new stack, string for string |
| Numerals.NumeralEval | os161-base-2.0.3/common/libc/printf/__printf.c:413-491 | a numeral in any base evaluates back to its number |
| Numerals.NumeralShape | os161-base-2.0.3/common/libc/printf/__printf.c:413-491 | it has no terminator inside and a leading zero only for zero |
| Numerals.NumeralFits | os161-base-2.0.3/common/libc/printf/__printf.c:84 | every 64-bit number fits the 23-byte buffer in bases 8, 10 and 16 |
| Numerals.ConvertNumber | os161-base-2.0.3/common/libc/printf/__printf.c:413-447 | the loop that fills the buffer from the right yields the numeral and never leaves the buffer |
| Atoi.Parse | os161-base-2.0.3/common/libc/stdlib/atoi.c:49-101 | blanks and tabs, an optional sign and digits are read in 32-bit arithmetic; unlike section 7.20.1.2 of ISO C99 no other white space is skipped |
| Atoi.AtoiOfDecimal | os161-base-2.0.3/common/libc/stdlib/atoi.c:49-101 | the decimal text of every int reads back as that int, the most negative one included |
| Printf.Sink.Send | os161-base-2.0.3/common/libc/printf/snprintf.c:73-93 | what fits is stored, what does not is dropped, and all of it counts as sent |
| Printf.PF.EndField | os161-base-2.0.3/common/libc/printf/__printf.c:155-169 | all attributes are reset between fields |
| Printf.PF.ReadModifier | os161-base-2.0.3/common/libc/printf/__printf.c:180-233 | after any sequence of modifiers the attributes are those the sequence describes |
| Printf.ZeroPaddedIff | os161-base-2.0.3/common/libc/printf/__printf.c:203-231 | zero padding is on exactly when some zero has no other digit before it |
| Printf.PF.GetNum | os161-base-2.0.3/common/libc/printf/__printf.c:240-311 | magnitude and sign of the argument as the conversion and size select it |
| Printf.PF.SetBase | os161-base-2.0.3/common/libc/printf/__printf.c:323-343 | the base and prefix of a conversion |
| Printf.PF.Fill | os161-base-2.0.3/common/libc/printf/__printf.c:348-357 | that many fill characters |
| Printf.PF.PrintStuff | os161-base-2.0.3/common/libc/printf/__printf.c:365-404 | prefixes and text padded left, right or with zeros after the prefixes |
| Printf.PaddedLength | os161-base-2.0.3/common/libc/printf/__printf.c:365-404 | a field is as wide as asked for, or as its text needs |
| Printf.NumberMeans | os161-base-2.0.3/common/libc/printf/__printf.c:240-491 | a number's field is a sign if it is negative, the prefix asked for and digits whose value in base 16, 8 or 10 is the number's, with zeros or blanks where the modifiers want them, as wide as asked for |
| Printf.TextMeans | os161-base-2.0.3/common/libc/printf/__printf.c:496-563 | any other field is the string, the character or the conversion character itself, on the side asked for in the width asked for |
| Printf.RenderField | os161-base-2.0.3/common/libc/printf/__printf.c:496-592 | a conversion, with any modifiers, prints its field, and what follows prints with the arguments that are left |
| Printf.RenderPlain | os161-base-2.0.3/common/libc/printf/__printf.c:496-592 | anything else prints as it is |
| Printf.PF.PrintNum | os161-base-2.0.3/common/libc/printf/__printf.c:413-491 | sign, base prefix and numeral, padded |
| Printf.PF.SendChar | os161-base-2.0.3/common/libc/printf/__printf.c:496-563 | one character of the format moves the machine as the field description says |
| Printf.PF.Vprintf | os161-base-2.0.3/common/libc/printf/__printf.c:565-592 | the character-at-a-time machine sends exactly the text the format and arguments describe field by field |
| Printf.Vsnprintf | os161-base-2.0.3/common/libc/printf/snprintf.c:96-142 | the result is the length of the whole text, and the buffer gets its first min(len - 1, total) characters and a terminator, as section 7.19.6.5 of ISO C99 says |
| Printf.PercentD | os161-base-2.0.3/common/libc/printf/__printf.c:413-491 | %d prints every int in plain decimal |
| Printf.PercentUnsigned | os161-base-2.0.3/common/libc/printf/__printf.c:413-491 | %x, %o and %u print every unsigned int as digits of its value in base 16, 8 and 10 |
| Printf.PercentS | os161-base-2.0.3/common/libc/printf/__printf.c:540-563 | %s prints a string as it is |
| Printf.AtoiOfPercentD | os161-base-2.0.3/common/libc/stdlib/atoi.c:49-101 | atoi of what %d prints is the number again, for every int |
| Printf.PrintAndRead | os161-base-2.0.3/common/libc/printf/snprintf.c:96-142 | a number printed with %d into any buffer of twelve characters or more and read from it by atoi is the number again, for every int |
| FileTables.FileSystem.ConsoleInit | os161-base-2.0.3/kern/proc/proc.c:209-246 | a standard descriptor gets an open file of its own with count one, on a vnode that may be open already |
| FileTables.FileSystem.FreeEntry | os161-base-2.0.3/kern/syscall/syscall_FILE.c:230-238 | a free entry of the system table, or none exactly when it is full |
| FileTables.FileSystem.FreeDescriptor | os161-base-2.0.3/kern/syscall/syscall_FILE.c:240-250 | the first free descriptor from 3 on, or OPEN_MAX |
| FileTables.FileSystem.Open | os161-base-2.0.3/kern/syscall/syscall_FILE.c:230-279 | for any vnode, open already or not, which of the four outcomes occurs and what each leaves in both tables; right counts stay right if and only if the first free descriptor is below OPEN_MAX - 1 or the system table is full, and in the latter case the vnode is lost |
| FileTables.FileSystem.Enter | os161-base-2.0.3/kern/syscall/syscall_FILE.c:232-279 | the vnode goes to the entry found; it gets count one and a descriptor, or no count and the last descriptor, or no count and no descriptor |
| FileTables.GuardIs | os161-base-2.0.3/kern/syscall/syscall_FILE.c:230-254 | an open ends well if and only if the system table has room and a descriptor from 3 to OPEN_MAX - 2 is free |
| FileTables.StaleCount | os161-base-2.0.3/kern/syscall/syscall_FILE.c:245-254 | a descriptor given to an entry whose count stays zero breaks the count |
| FileTables.FileSystem.Drop | os161-base-2.0.3/kern/syscall/syscall_FILE.c:330-345 | in any run, what giving up a descriptor does to entry, slot and calls, and that it fails an assertion if and only if the entry has no lock or its last count no vnode; with right counts it does not, and the vnode is closed exactly when it was the last |
| FileTables.FileSystem.Close | os161-base-2.0.3/kern/syscall/syscall_FILE.c:321-349 | EBADF, and no other error, exactly for a bad or empty descriptor; otherwise the slot is empty and, with right counts, the vnode is closed exactly when no other slot of any process refers to it |
| FileTables.FileSystem.Dup2 | os161-base-2.0.3/kern/syscall/syscall_FILE.c:567-614 | EBADF, and no other error, exactly for bad descriptors; otherwise newfd refers to oldfd's file and, with right counts, what it referred to before is closed exactly when that was its last slot |
| FileTables.DropOk | os161-base-2.0.3/kern/syscall/syscall_FILE.c:330-345 | one slot less keeps count_refs equal to the number of slots over all processes, and the calls of vfs_open and vfs_close balanced |
| FileTables.ShareOk | os161-base-2.0.3/kern/syscall/syscall_FILE.c:602-609 | one slot more keeps them equal |
| FileTables.OpenOk | os161-base-2.0.3/kern/syscall/syscall_FILE.c:230-279 | a new file with its first slot keeps them equal |
| FileTables.DropSound | os161-base-2.0.3/kern/syscall/syscall_FILE.c:330-345 | one slot less keeps the calls balanced in any run, failed opens included, and the counts right in any run in which none failed half-way |
| FileTables.ShareSound | os161-base-2.0.3/kern/syscall/syscall_FILE.c:602-609 | the same for one slot more |
| FileTables.OpenSound | os161-base-2.0.3/kern/syscall/syscall_FILE.c:230-279 | the same for an open that ends well |
| FileTables.StrandSound | os161-base-2.0.3/kern/syscall/syscall_FILE.c:230-254 | and for one that fails half-way |
| FileTables.ClosedOnce | os161-base-2.0.3/kern/syscall/syscall_FILE.c:330-345 | every vfs_open whose vnode reached an entry is answered by exactly one vfs_close of that entry and vnode, or the entry still holds it |
| FileTables.CloseHasOpen | os161-base-2.0.3/kern/syscall/syscall_FILE.c:330-345 | every vfs_close answers such an open |
| FileTables.AllAccounted | os161-base-2.0.3/kern/syscall/syscall_FILE.c:230-349 | in any run, vnode by vnode, what was opened has been closed, was lost to a full system table, or is held by an entry; so all is closed if and only if nothing was lost and nothing is held |
| FileTables.AllClosed | os161-base-2.0.3/kern/syscall/syscall_FILE.c:321-349 | once no slot of any process is left, in a run in which no open failed half-way: every open whose vnode reached an entry has been closed exactly once, and all is closed if and only if nothing was lost to a full system table |
| FileRuns.Perform | os161-base-2.0.3/kern/syscall/syscall_FILE.c:230-614 | one call in any state: the descriptors change by that call or, if it fails, not at all; its guard fails exactly when it is recorded as a failed open, and no call panics before an open has failed half-way |
| FileRuns.Run | os161-base-2.0.3/kern/syscall/syscall_FILE.c:230-614 | every run from boot: opened is closed, lost or held; if every open met its guard nothing panics, the counts are right and, once no slot is left, all is closed; if none failed half-way, all is then closed exactly if nothing was lost |
| FileRuns.OpenLast | os161-base-2.0.3/kern/syscall/syscall_FILE.c:240-254 | a run from boot to an open that takes the last descriptor and fails, after which the counts are wrong |
| FileRuns.NeverClosed | os161-base-2.0.3/kern/syscall/syscall_FILE.c:330-345 | such a run on to where no slot is left, nothing was lost, and still a vnode is never closed |
| FileRuns.ClosedAfterAll | os161-base-2.0.3/kern/syscall/syscall_FILE.c:567-614 | another in which all is closed after all, because a dup2 of the last descriptor sets its count right |
| FileRuns.FillTable | os161-base-2.0.3/kern/syscall/syscall_FILE.c:230-243 | a run from boot in which eleven processes fill the system table and the next vnode opened is lost |
| FileRuns.LostForEver | os161-base-2.0.3/kern/syscall/syscall_FILE.c:230-349 | the same run on to where no slot is left and every count is right: the lost vnode is never closed |
| Console.StepInv | os161-base-2.0.3/kern/dev/generic/console.c:139-177 | every memory access of con_input and getch_intr keeps the invariant that ties the ring to what was typed and what was returned |
| Console.ReturnsWhatWasTyped | os161-base-2.0.3/kern/dev/generic/console.c:139-177 | in every interleaving what getch has returned is, from the first on, what was typed without what was typed while 31 characters were waiting; at most 31 wait, and (head - tail) mod 32 is the semaphore count plus the steps in flight |
| Console.SemaphoreCounts | os161-base-2.0.3/kern/dev/generic/console.c:139-177 | with neither side inside, the semaphore counts the characters typed and not returned, so getch goes through exactly if there is one |
| Console.MovesOn | os161-base-2.0.3/kern/dev/generic/console.c:139-177 | con_input is done after three steps of its own, getch after two once it is past the semaphore |
| Console.DroppedWhenFull | os161-base-2.0.3/kern/dev/generic/console.c:161-171 | a character is dropped exactly when 31 are waiting |

## Left out

- AlgorithmD and LongDivision: the remainder is always computed, as if `arq` were never null.
- SignedDivision and MulDi3: conversions of an out-of-range value to a signed type wrap, which `longlong.h` of the millicode assumes.
- KernelHeap.KHeap.Kmalloc: one call run by itself; module HeapRuns has the calls of many threads interleaved.
- HeapRuns: requests for whole pages, `kheap_nextgeneration` and the dump functions. A page goes back in the step that drops the lock, and a thread may be interrupted between taking a record and linking it even where the code keeps the lock, so the model has more interleavings than the code.
- KernelHeap.KHeap.Kfree: a block that is already free must not be freed again; the built configuration does not detect it in general.
- HeapRuns.System.Free: callers free and write only blocks they have.
- KernelHeap: GUARDS, LABELS, SLOW and SLOWER are off as built, so guard bands, labels and `checksubpages` are not modelled; memory is a map from the addresses of link words, and the links between page records are kept by root and index instead of by address.
- Threads: `thread_create` failing, stack guard bands, process bookkeeping, `cpu_idle` waking up for a reason and inter-processor interrupts; Wake may happen at any time.
- Threads.StepInv: taking a waiter off a channel and queueing it are two steps, and each list move of a migration is a step of its own; the code holds a lock over some of them, so the model has more interleavings than the code.
- Threads.MigrationConserves: about single steps; the exact final distribution is stated for an undisturbed run in Balancing.RunQueues.ConsiderMigration.
- Ipl.Cpu.Acquire: the lock word and the holder are one field, so test-and-set and memory barriers are left out, and so are the calls to the deadlock detector, which module Hangman models.
- IplRuns: handlers may not turn interrupts on, and code sleeps holding no spinlock but the one it passes; interrupts taken by an idle CPU run with the level already high, and `as_activate` and `exorcise` are not steps here.
- ThreadList: the iteration macros.
- Semaphores.StepInv: a V that would wrap the count is not a step; the code panics there.
- LocksAndCvs: one lock and one condition variable; the ownership checks that panic are preconditions of steps.
- Semaphores, LocksAndCvs: wait channels are first in, first out, which ThreadRuns.SleepersInOrder shows of them, and `thread_switch` is one step here because module Threads models its inside.
- CopyInOut: a fault in the middle of a copy is a byte that is not mapped; `setjmp` recovery itself is not modelled, and what a failed copy left behind is not specified.
- Argv.FromUser: user memory does not change between the two attempts; allocation failure and `execthrottle` are left out.
- Printf.Vsnprintf: the arguments must match the format, as C requires; widths and counts do not overflow an int; formats are strings without their terminator.
- FileTables.FileSystem.Open: from the point where `vfs_open` has succeeded; the error paths of O_APPEND, of an invalid mode and of `lock_create`, which free a table entry, are left out, and so is the store past the end of the process table in the case PastTheTable.
- FileTables: calls run one after another, `vfs_open` and `vfs_close` are only recorded, of a file's lock only that it was created is, and allocation failures in `console_init` are left out; read, write, lseek and the sharing of descriptors by fork are not part of this model.
- FileTables.AllClosed: with fewer than 2^25 processes, so that no count can wrap upward; the kernel has at most 100.
- FileRuns.Run: the same bound; processes are never destroyed, which a run without further calls of theirs covers.
- Console: the output side, and the lock that lets one reader in at a time.
- `addrspace.c`, `bswap.c`, ELF loading, VFS, devices, the menu, waitpid and process exit are not part of this model.
- The remaining millicode (add, subtract, shift, compare) and string functions would only add easy members.
