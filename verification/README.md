# Verified model of the PULP runtime's algorithmic core

This project models, in Dafny, the parts of a PULP runtime and its Arduino layer in which loops, shared state or
arithmetic carry the behaviour, and proves what those parts are for.

* **Substring search** (`Search`, `SuffixOrder`, `TwoWay`, `Kmp`, `Memmem`): both back ends of `memmem`. The two-way
  search is correct because of the critical factorization theorem, which is proved here; the Knuth-Morris-Pratt search
  is correct because its table holds the longest proper borders. Both meet the same specification, so they agree.
* **Replace and trim** (`ReplaceSpec`, `ReplaceInPlace`, `Trim`, `TrimInPlace`): in-place rewriting of a buffer refines
  greedy replacement and line-wise stripping.
* **Allocator** (`FreeList`, `Links`, `Banks`, `Alloc`, `AllocRuns`, `AllocClient`): first fit over headers that live in the free memory
  itself, coalescing, aligned allocation and the counting of free bytes per power bank. The abstract state is the set
  of free bytes; the list is a function of it.
* **UART receive path** (`UartFifo`, `Uart`, `UartRuns`): a circular hardware area drained into a linear one is a queue that drops
  its oldest bytes.
* **Tick reader** (`Tick`): a lock-free double read against a timer interrupt.
* **Flash image** (`Packing`, `Crc32`, `Crc32Division`, `FlashFormat`, `FlashComps`, `FlashLayout`, `FlashWriter`): layout, checksum,
  padding, and a reader that recovers everything. The checksum is the CRC-32 of RFC 1952, section 8: the complement of a
  polynomial remainder.
* **Printing and parsing** (`Digits`, `Serials`, `StreamParser`, `PrintParse`): each undoes the other.
* **FLL** (`FllMath`, `Fll`, `FllRuns`): multiplier and divider of a frequency, and when the record agrees with the hardware.
* **Cluster** (`Cluster`, `ClusterRuns`, `ClusterHistory`, `ClusterStacks`, `ClusterClient`): starting N cores and waiting for them, as an interleaving of steps.

`Common` and `Arithmetic` hold what the modules share. Code that updates variables in place is a method or a class here,
proved against a function or a predicate; protocols between concurrent parties are state machines over their steps.

## Where the code departs from what it says

* `memrmem_twoway` (arduino/cores/String.cpp:726-757) can skip occurrences. It returns the rightmost occurrence in
  every haystack exactly for needles that repeat one byte; `TwoWay.MemrmemTwoWay` shows the miss for every other needle.
* `mem_replace_with_smaller_size` (arduino/cores/String.cpp:4125-4172) documents 0 as "no replacement", but reports the
  length 0 as well, so that the string becomes empty.
* `mem_replace_with_larger_size` (arduino/cores/String.cpp:4203-4213) does not count the replacements made so far. From
  the second match on the recorded length is wrong, and the buffer is grown for the first match only: the bytes written
  are the right ones, but with more than one match they stay inside the buffer exactly if it was large enough before.
* `pos_fll_init` (kernel/fll-v1.c:141-153) says that a frequency set while the loop was off is applied now, but it is
  applied only if the loop was already on, because `pos_fll_is_on` is set afterwards.
* `cluster_start` returns silently when the stacks cannot be allocated (kernel/cluster.c:108-109). The wait behind it, as
  in `bench_cluster_exec` (kernel/bench.c:263-273), then reports 0 although no core has run. As every start rebuilds the
  L1 heap first (kernel/cluster.c:93, kernel/cluster.c:105), this happens to all starts or to none.
* If the stacks fit, a second start sets `cluster_running` (kernel/cluster.c:111) for cores that are parked and do not
  clear it again: only the wait behind the first start ever returns.
* `parseInt` adds the character before it subtracts `'0'` (arduino/cores/stream.cpp:168), so numbers above 2147483599 are
  read correctly only because signed arithmetic wraps around on the target.
* `user_head < 0` and the branch that sets `user_head` to -1 never apply (drivers/uart.c:113-123, drivers/uart.c:148): the
  variable is unsigned. The result is right nevertheless.
* `pos_tick_get_counter_us` (kernel/tick.c:116-119) returns a 32-bit `long`, so its readings decrease after 2^31
  microseconds.

## Model

| member | source | states |
|---|---|---|
| SuffixOrder.CriticalFactorization | arduino/cores/String.cpp:679-701 | the later of the two maximal suffix starts is a critical position: every repetition around it is longer than the left part and is a period of the whole needle |
| SuffixOrder.NoShortRepetition | arduino/cores/String.cpp:679-701 | no repetition fits to the left of the start of a maximal suffix |
| SuffixOrder.SmallerIsTransitive | arduino/cores/String.cpp:637-672 | the suffix order under either byte order, with a prefix counting as smaller, is transitive |
| SuffixOrder.SmallerIsAsymmetric | arduino/cores/String.cpp:637-672 | and asymmetric, so that a greatest suffix is unique |
| TwoWay.MaxSuffix | arduino/cores/String.cpp:637-672 | returns the start of the greatest suffix under the natural or the reversed byte order, with fewer than 2n byte comparisons |
| SuffixOrder.MaximalMeaning | arduino/cores/String.cpp:637-672 | what greatest means: every other suffix ends, or has the lower (or higher) byte, where the two first differ |
| TwoWay.CutIsUnique | arduino/cores/String.cpp:679-686 | a needle has one cut |
| TwoWay.NoOccurrenceSkipped | arduino/cores/String.cpp:688-701 | the shift k - cut + 1 after a mismatch in the right half skips no occurrence, for every haystack and needle |
| TwoWay.MemmemTwoWay | arduino/cores/String.cpp:677-724 | the leftmost occurrence, or NULL exactly when there is none |
| TwoWay.CutSeparatesDifferentBytes | arduino/cores/String.cpp:726-757 | the cut is 0 exactly if the needle repeats one byte; otherwise it separates two different bytes |
| TwoWay.BackwardStep | arduino/cores/String.cpp:734-781 | a step of the backward search: after a first mismatch at k up to the cut it goes cut - k + 1 places to the left, after a later one a single place, and gives up where there is no such place |
| TwoWay.BackwardIsFirstOnChain | arduino/cores/String.cpp:734-781 | the search gives the first occurrence on its chain, and NULL exactly if the chain holds none |
| TwoWay.MemrmemTwoWay | arduino/cores/String.cpp:726-785 | the first occurrence on the chain of positions that starts at the end of the haystack, for every haystack and needle, so that an occurrence at the end is always found; needles that repeat one byte get the rightmost one, and every other needle is missed in itself followed by one byte |
| Kmp.BordersOfMatch | arduino/cores/String.cpp:457-503 | a shorter needle prefix ends where a longer one does exactly if it is a border of the longer one |
| Kmp.FallBack | arduino/cores/String.cpp:478-492 | falling back to the longest border loses no candidate |
| Kmp.ComputeLpsTable | arduino/cores/String.cpp:457-503 | entry i is the longest proper border of the needle's prefix of length i + 1 |
| Kmp.MemmemKmp | arduino/cores/String.cpp:510-556 | the leftmost occurrence, or NULL exactly when there is none, with at most as many fallbacks as the haystack has bytes |
| Kmp.MemrmemKmp | arduino/cores/String.cpp:562-629 | the rightmost occurrence by a backward scan with the reversed needle, with the same bound |
| Search.FirstIsUnique | arduino/cores/String.cpp:390-423 | at most one result is leftmost, so the two back ends agree on all inputs |
| Memmem.Memmem | arduino/cores/String.cpp:390-423 | whichever back end is configured, the leftmost occurrence of a nonempty needle; an empty needle is never found |
| Memmem.Memrmem | arduino/cores/String.cpp:425-451 | the rightmost occurrence with the one back end; with the other the first occurrence on its chain, which is the rightmost in every haystack exactly for needles that repeat one byte; an occurrence at the end is found with either |
| ReplaceSpec.PartsJoin | arduino/cores/String.cpp:4288-4318 | the parts between matches, joined by the match, are the content; joined by the replacement they are the result; there is one more part than matches |
| ReplaceSpec.PartsGreedy | arduino/cores/String.cpp:4288-4318 | every part ends where its first match starts, and the last one holds none |
| ReplaceSpec.GreedyIsUnique | arduino/cores/String.cpp:4258-4286 | there is only one way to cut a content greedily, so the replacement is determined |
| ReplaceSpec.ReplacedLength | arduino/cores/String.cpp:4125-4172 | the length of the result, from the number of matches |
| ReplaceInPlace.Tokenize | arduino/cores/String.cpp:4288-4318 | finds the first match of a part of the buffer and the length of what follows it |
| ReplaceInPlace.Splice | arduino/cores/String.cpp:4141-4157 | overwriting a match by a shorter text and moving the rest down, byte for byte |
| ReplaceInPlace.ReplaceSameSize | arduino/cores/String.cpp:4258-4286 | for all contents the buffer becomes the greedy replacement, and the count is the number of matches |
| ReplaceInPlace.ReplaceSmaller | arduino/cores/String.cpp:4125-4172 | the buffer becomes the greedy replacement with the right count; the new length is right exactly if something matched or the content was empty |
| ReplaceInPlace.ReplaceString | arduino/cores/String.cpp:4048-4079 | the string is replaced and terminated, or emptied exactly if the replacement is shorter and nothing matched; with a longer one it is the replacement exactly with no match, or with one and a buffer that holds it or grows, and with more it is cut to the recorded length; the capacity grows at most once, to what the first replacement needs |
| ReplaceInPlace.LargerStringIs | arduino/cores/String.cpp:4099-4117 | why: the string counts its terminating zero as content, and the zero is neither matched nor moved into a match |
| ReplaceInPlace.ReplaceLarger | arduino/cores/String.cpp:4174-4256 | with a longer replacement the memory from the buffer on becomes the greedy replacement and nothing behind that is written, the count, the recorded length and the capacity after the one reallocation; nothing changes and the count is -1 if the buffer cannot grow |
| ReplaceInPlace.LargerStaysInsideIff | arduino/cores/String.cpp:4203-4240 | the result fits the buffer always with at most one match, and with more exactly if content + matches * (replacement - match) was there before |
| ReplaceInPlace.LargerLengthIff | arduino/cores/String.cpp:4203-4251 | with a longer replacement the recorded length is right exactly if there is at most one match |
| Trim.StripMeaning | arduino/cores/String.cpp:4374-4398 | stripping a line removes only the bytes 9 to 13 and 32, from both ends only, and all of them there |
| Trim.SpaceBytes | arduino/cores/String.cpp:4374-4398 | white space is tab, line feed, vertical tab, form feed, carriage return and space; the second and fifth of these break lines |
| Trim.TrimmedLines | arduino/cores/String.cpp:4349-4417 | in a trimmed text no line begins or ends with white space |
| Trim.TrimIsIdempotent | arduino/cores/String.cpp:4349-4417 | trimming twice is trimming once |
| Trim.TrimKeeps | arduino/cores/String.cpp:4349-4417 | everything that is not white space, and every line break, is kept in order |
| TrimInPlace.ScanLine | arduino/cores/String.cpp:4384-4392 | the scan stops at the line break or the end, just behind the last character that is not white space |
| TrimInPlace.TrimLine | arduino/cores/String.cpp:4374-4405 | one line is stripped in place and the write position never overtakes the read position |
| TrimInPlace.TrimString | arduino/cores/String.cpp:4349-4417 | the buffer holds the trimmed string and its zero, and what lies behind the old end is untouched |
| FreeList.TakenIsWellFormed | kernel/alloc.c:196-238 | taking the start of a chunk keeps the list sorted, disjoint, 8-aligned, with sizes of at least 8, and never two adjacent chunks |
| FreeList.TakenRemovesExactly | kernel/alloc.c:196-238 | and removes exactly the block's bytes from the free set |
| FreeList.GivenIsWellFormed | kernel/alloc.c:288-339 | so does giving a block back, whichever of its neighbours it touches |
| FreeList.GivenAddsExactly | kernel/alloc.c:288-339 | and adds exactly its bytes |
| FreeList.GivenPayload | kernel/alloc.c:301-338 | which bytes become payload: a header survives only in front of the merged chunk |
| FreeList.FirstBehindIsInsertionPoint | kernel/alloc.c:293-299 | the first chunk behind a block that is not free is where it belongs |
| FreeList.Canonical | kernel/alloc.c:288-339 | two well-formed lists with the same free bytes are the same list |
| FreeList.TotalSizeIsFreeCount | kernel/alloc.c:44-68 | the sizes in the headers add up to the number of free bytes |
| Links.TakenLinked | kernel/alloc.c:203-238 | the writes of an allocation turn the embedded list into the taken one and no other header changes |
| Links.GivenLinked | kernel/alloc.c:301-338 | the writes of a release turn it into the merged one |
| Banks.CountAfter | kernel/alloc.c:91-131 | the number of payload bytes in a bank moves by the overlap of the block with the bank and stays within the bank's size |
| Banks.SwitchedBanks | kernel/alloc.c:108-130 | switching exactly the banks that stop or start being entirely free keeps every bank powered exactly if it is not entirely free |
| Banks.Accounting.PowerCtrl | kernel/alloc.c:129-130 | the power hook is only ever asked to switch banks that are in the other state |
| Banks.Accounting.Account | kernel/alloc.c:91-131 | every counter moves by the bytes that the block has in its bank, and the banks remain powered exactly |
| Alloc.Allocator.PosAllocInit | kernel/alloc.c:173-186 | one chunk covers the aligned region; with room for less than a header no proper list is represented |
| Alloc.NoChunk | kernel/alloc.c:173-186 | a first header of size 0 belongs to no proper list |
| Alloc.Allocator.PosAllocInfo | kernel/alloc.c:44-68 | reports the number of free bytes and of chunks |
| Alloc.Allocator.ClientStore | kernel/alloc.c:188-249 | what a client writes outside the free set leaves list, counters and free set alone |
| FreeList.RoomIsInOneChunk | kernel/alloc.c:196-199 | free bytes in a row lie in one chunk, because chunks are never adjacent |
| Alloc.FirstFitIsLowest | kernel/alloc.c:192-199 | the first chunk that fits starts at the lowest address with that many free bytes in a row; if none fits there is no such room |
| Alloc.Allocator.FindChunk | kernel/alloc.c:192-199 | finds the first chunk that holds the rounded size, and its predecessor |
| Alloc.Allocator.Take | kernel/alloc.c:201-240 | what carving does to memory, list, free set and payload |
| Alloc.Allocator.PosAlloc | kernel/alloc.c:188-249 | the block is the lowest room of the rounded size and leaves the free set; NULL exactly if no chunk holds that size, which is exactly if no such room is free; counters still agree |
| Alloc.Allocator.Give | kernel/alloc.c:301-338 | what coalescing on both sides does to memory, list, free set and payload |
| Alloc.Allocator.PosFree | kernel/alloc.c:288-339 | the rounded block joins the free set; the counters still agree with the payload |
| Alloc.Allocator.PosAllocAlign | kernel/alloc.c:251-286 | the result is the first aligned address in the lowest room of the padded size, and exactly its bytes leave the free set; for alignments below 8 it is the lowest room of the rounded size; NULL exactly if no chunk holds the (padded) size |
| Alloc.Allocator.KeepMiddle | kernel/alloc.c:267-283 | freeing the header and the tail restores everything but the aligned block, and the stale branch is never taken |
| Alloc.UnroundedTailOverlaps | kernel/alloc.c:282-283 | the tail that is freed behind an aligned block is apart from the rounded block, and starts at a cell, exactly if the size is a multiple of 8 |
| AllocRuns.RunKeepsPartition | kernel/alloc.c:188-339 | at every moment of every run each managed byte is free or in exactly one live block |
| AllocRuns.NewBlockIsApart | kernel/alloc.c:188-249 | a new block overlaps no live block |
| AllocRuns.AllFreedRestoresInitialChunk | kernel/alloc.c:173-339 | freeing all outstanding blocks in any order rebuilds the single initial chunk |
| AllocRuns.Conservation | kernel/alloc.c:44-68 | free bytes plus live sizes is constant over every run |
| AllocClient.Serve | kernel/alloc.c:188-339 | a request is one step of the run, and its answer is determined by the free bytes: the lowest room, the aligned address in the lowest padded room, or a refusal exactly if there is none |
| AllocClient.ServeAll | kernel/alloc.c:173-339 | any sequence of requests is answered so position by position; free bytes and live blocks add up to the whole, and once nothing is held the headers in memory spell the initial chunk |
| UartFifo.PollLosslessIff | drivers/uart.c:96-150 | a poll loses nothing exactly if fewer than 64 bytes arrived and all fit the user area |
| UartFifo.PollKeepsLast64 | drivers/uart.c:106-146 | of what was unread and the newest arrivals, counted modulo 64, a poll keeps the last 64 bytes |
| UartFifo.UnreadIsMostRecent | drivers/uart.c:96-172 | in every run that polls in time the unread bytes are the most recent part of what arrived |
| UartFifo.ReadsDeliverTheStream | drivers/uart.c:96-172 | without overflow the reads deliver the arrived bytes in order and without gaps |
| Uart.CounterDifference | drivers/uart.c:103-107 | the unsigned difference of the hardware counters is the number of arrived bytes modulo 64, and 0 exactly if they are equal |
| Uart.StagedByte | drivers/uart.c:133-140 | clearing a fetched byte and writing left of the circular area leave the later bytes in place |
| Uart.ArrivalStaged | drivers/uart.c:133-140 | so does a byte that arrives meanwhile, while fewer than 64 are outstanding |
| Uart.Rebase | drivers/uart.c:145 | counted from the sampled counter value on, what arrived during a poll is what the next poll finds |
| Uart.Receiver.constructor | drivers/uart.c:65-94 | opening resets the software state and the transfer |
| Uart.Receiver.MakeRoom | drivers/uart.c:108-131 | the user area keeps its newest bytes and has room for the new ones, through the wrap-around of `user_head` and with arrivals between the loop steps |
| Uart.Receiver.Fetch | drivers/uart.c:106-146 | one poll appends the bytes that were counted and drops the oldest beyond 64, whatever arrives meanwhile |
| Uart.Receiver.Available | drivers/uart.c:96-150 | the unread bytes become the polled queue, and their number is returned; bytes that arrive during the poll are left for the next one |
| Uart.Receiver.Peek | drivers/uart.c:152-156 | the oldest unread byte after a poll, or -1 |
| Uart.Receiver.Read | drivers/uart.c:158-172 | the oldest unread byte after a poll leaves the queue, or -1 |
| UartRuns.Handle | drivers/uart.c:96-172 | every arrival, poll and read is the step of the queue, followed by what arrived during it |
| UartRuns.Drive | drivers/uart.c:65-172 | after any events, and any arrivals while they are handled, a newly opened receiver holds and has delivered what the queue does; without overflow that is a prefix of the arrived stream |
| Tick.Machine.InterruptHandler | kernel/tick32.S:62-191 | the 64-bit counter advances through its two words, with carry |
| Tick.PickedPairIsExact | kernel/tick.c:122-222 | the pair that the protocol picks from up to nine loads was exact at one instant of the call, even if 64-bit reads tear |
| Tick.LateInterrupt | kernel/tick.c:198-209 | different millisecond counts at equal timer counts mean that the interrupt came during the last load, and the third read is exact |
| Tick.PickedPairIsExactIff | kernel/tick.c:122-222 | when the handler is late, the picked pair is the time at an instant of the call exactly if its timer count was loaded before the wrap, or its low word after the handler and its high word too unless that one stays the same |
| Tick.Machine.SafePullCounterValue | kernel/tick.c:122-222 | in a call shorter than one timer period the pair is the exact time at an instant of the call |
| Tick.MicrosecondsOf | kernel/tick.c:249-272 | the formula gives that time in microseconds, modulo 2^64 |
| Tick.Machine.GetCounterUs | kernel/tick.c:249-272 | the true time in microseconds at an instant of the call |
| Tick.Machine.GetCounterMs | kernel/tick.c:224-247 | that time in whole milliseconds |
| Tick.Readings | kernel/tick.c:249-272 | each reading of a series whose call took less than a timer period is the microseconds at an instant of that call; of two such readings the later one is not smaller, until the count wraps at 2^64 |
| Tick.LongReadingsNeverDecreaseIff | kernel/tick.c:111-119 | readings as a 32-bit `long` never decrease up to an instant exactly if it is before 2^31 |
| Crc32.GetCrc | bin/plp_flash_stimuli.py:159-171 | the bitwise loop computes the checksum that `Crc32Division.CrcIsRemainder` and `Crc32Division.KnownValues` describe |
| Crc32Division.CrcIsRemainder | bin/plp_flash_stimuli.py:159-171 | the message followed by 32 zeros, its first 32 bits complemented, is divided by the CRC-32 polynomial over GF(2); the checksum is the complement of the remainder |
| Crc32Division.KnownValues | bin/plp_flash_stimuli.py:159-171 | the checksum of the empty message is 0, that of "123456789" is 0xCBF43926 |
| Crc32.FeedFour | bin/plp_flash_stimuli.py:159-171 | feeding four bytes is 32 steps of their word |
| Crc32.FeedInjective | bin/plp_flash_stimuli.py:159-171 | different registers stay different, whatever is fed |
| Crc32.Residue | bin/plp_flash_stimuli.py:305-306 | a message followed by its own checksum has the checksum 0x2144DF1C |
| Crc32.BurstsAreDetected | bin/plp_flash_stimuli.py:159-171 | two equally long messages that differ only within four consecutive bytes never share a checksum |
| Packing.PackedWord | bin/plp_flash_stimuli.py:131-139 | a packed little-endian word reads back |
| Packing.LittleEndian | bin/plp_flash_stimuli.py:131-139 | the lowest byte of a word comes first |
| Packing.LowWordFirst | bin/plp_flash_stimuli.py:141-147 | and the lower word of a 64-bit value |
| FlashFormat.OffsetsIncrease | bin/plp_flash_stimuli.py:258-285 | segments lie behind the checksum, in order, without overlap |
| FlashFormat.OffsetsAreAligned | bin/plp_flash_stimuli.py:269-289 | segments start at whole blocks and the file table at a multiple of 8 |
| FlashFormat.FixedWords | bin/plp_flash_stimuli.py:291-297 | the first four words of the image read back: size, number of segments, entry and the boot address 0x1C000000 |
| FlashFormat.EntryWords | bin/plp_flash_stimuli.py:298-303 | so does every segment's table entry |
| FlashFormat.BootRoundTrip | bin/plp_flash_stimuli.py:258-315 | whatever follows, a boot loader recovers every segment: offset, base, size and bytes |
| FlashFormat.HeaderChecks | bin/plp_flash_stimuli.py:304-307 | the header with its checksum has the residue of CRC-32 |
| FlashLayout.OffsetsAreTight | bin/plp_flash_stimuli.py:264-289 | each segment, and the end, starts less than a block behind what is in front of it |
| FlashLayout.BlocksHold | bin/plp_flash_stimuli.py:279 | the stated number of blocks is the least that holds the data |
| FlashLayout.GapsAreZero | bin/plp_flash_stimuli.py:174-194 | the bytes in front of the first segment, between segments and in front of the table are zero |
| FlashLayout.HeaderFillIsZero | bin/plp_flash_stimuli.py:304 | so are those between the segment table and the checksum |
| FlashComps.AddressesIncrease | bin/plp_flash_stimuli.py:330-356 | files lie behind the table, aligned to 4, in order, with gaps below 4 bytes |
| FlashComps.FilesApart | bin/plp_flash_stimuli.py:347-356 | no two files overlap |
| FlashComps.ImageRoundTrip | bin/plp_flash_stimuli.py:330-384 | a reader that starts at the first word recovers the table size, every file with name and contents, and the boot binary |
| FlashLayout.TableHead | bin/plp_flash_stimuli.py:360-364 | the table begins with its size, lower word first, and the number of files |
| FlashLayout.CompWords | bin/plp_flash_stimuli.py:366-379 | and holds for each file its address, its size, the length of its name with the zero, and the name |
| FlashLayout.FileGapsAreZero | bin/plp_flash_stimuli.py:381-384 | the bytes between the table and the files, and between files, are zero |
| FlashLayout.NamesEndWithZero | bin/plp_flash_stimuli.py:376-379 | a name is followed by a zero, and that by the next entry |
| FlashLayout.TableSizeIs | bin/plp_flash_stimuli.py:338-361 | the table takes 12 bytes, and 13 and the name for each file; that is the size it states |
| FlashWriter.FlashImage.Pad | bin/plp_flash_stimuli.py:121-129 | appends zeros and moves the write position, backwards if the number is negative |
| FlashWriter.FlashImage.AppendBuffer | bin/plp_flash_stimuli.py:174-194 | the write position stays the length of the buffer exactly if the wanted offset does not lie behind it |
| FlashWriter.FlashImage.LayOut | bin/plp_flash_stimuli.py:264-289 | the offset and block number of every segment, and the table offset, as specified |
| FlashWriter.FlashImage.BuildHeader | bin/plp_flash_stimuli.py:291-307 | the header with table, padding and checksum |
| FlashWriter.FlashImage.DumpFlashHeader | bin/plp_flash_stimuli.py:258-315 | the boot part, with the write position in step |
| FlashWriter.FlashImage.DumpComps | bin/plp_flash_stimuli.py:330-384 | table and files, with the write position in step |
| FlashWriter.FlashImage.Generate | bin/plp_flash_stimuli.py:198-200 | the image of a new writer is the specified one, and everything in it reads back |
| Digits.NumeralValue | arduino/cores/serial.cpp:194-201 | the numeral of a number in a base up to 36 stands for it |
| Digits.NumeralIsCanonical | arduino/cores/serial.cpp:194-201 | it holds no zero byte and no leading zero digit |
| Digits.NumeralLength | arduino/cores/serial.cpp:187 | an n-bit number has at most n digits in any base |
| Digits.DigitCharacters | arduino/cores/serial.cpp:199 | digits above 9 are capital letters when printing, and letters of the configured case in a String |
| Digits.NumeralEnds | arduino/cores/serial.cpp:194-201 | the last character stands for v % base, those in front of it are the numeral of v / base |
| Serials.Serial.PrintNumber | arduino/cores/serial.cpp:185-203 | digits written backwards never underrun the 33-byte buffer for any base, and the numeral is written |
| Serials.Serial.PrintLong | arduino/cores/serial.cpp:109-116 | a negative number is a minus sign and a decimal numeral, even the least one |
| Serials.UnsignedIntegerToString | arduino/cores/String.cpp:80-138 | the numeral, or its last digits if the buffer is too small; nothing for an invalid base or buffer |
| StreamParser.SkippedBytes | arduino/cores/stream.cpp:30-48 | the bytes each mode discards: all but digits, a minus sign and perhaps a point; space, tab, carriage return and line feed; none |
| StreamParser.LeadMeaning | arduino/cores/stream.cpp:24-50 | what is skipped in front of a number, byte by byte for each mode: only those bytes, and all of them |
| StreamParser.Stream.PeekNextDigit | arduino/cores/stream.cpp:24-50 | skips that much and returns the first character of a number, or -1 |
| StreamParser.TruncatedDigit | arduino/cores/stream.cpp:162-171 | adding digits to a truncated value is truncating the value of all digits |
| StreamParser.Stream.ParseInt | arduino/cores/stream.cpp:154-176 | the value of the digits that are not ignored, with its sign, truncated to a `long`; the rest of the stream is left |
| PrintParse.RoundTrip | arduino/cores/stream.cpp:154-176 | every printed `long` is parsed back, whatever the mode skips stands in front of it, and what follows it is left |
| PrintParse.ParsesDigits | arduino/cores/stream.cpp:154-176 | digits with ignored characters among them, behind what is skipped and perhaps a minus sign, read as the digits alone, whatever character is ignored |
| PrintParse.ParsesNothing | arduino/cores/stream.cpp:154-160 | without a number there the result is 0 and the rest is left |
| PrintParse.Echo | arduino/cores/serial.cpp:109-116 | the text that the one object writes for a number, and that the other reads that number from it |
| PrintParse.OverflowFreeIff | arduino/cores/stream.cpp:168 | the parser's arithmetic stays within a `long` exactly up to 2147483599 |
| FllMath.ShiftFitsIff | kernel/fll-v1.c:27-28 | the shift count is one the processor can do exactly below 2^30 Hz |
| FllMath.ShiftChoice | kernel/fll-v1.c:27-28 | freq * 4^shift < 2^30 <= freq * 4^(shift + 1) below 2^28 Hz, and from there on the shift is 1 |
| FllMath.MultFits | kernel/fll-v1.c:29 | nothing overflows and the multiplier fits its 16-bit field |
| FllMath.ResultIsExact | kernel/fll-v1.c:47 | the rounding term changes nothing: the result is the exact quotient |
| FllMath.ErrorBound | kernel/fll-v1.c:24-54 | freq - fref / 2^D < result <= freq |
| FllMath.ErrorBelowRoot | kernel/fll-v1.c:24-54 | (freq - result)^2 < 4 * freq, whatever was chosen |
| FllMath.RealFreqIsFixed | kernel/fll-v1.c:24-54 | a frequency that resulted once results again |
| Fll.Flls.MultDivFromFreq | kernel/fll-v1.c:24-54 | in 32-bit arithmetic: the chosen shift, multiplier and divider, their fields fit, both error bounds hold, and the inverse computation on the pair gives the result |
| Fll.Flls.FreqFromMultDiv | kernel/fll-v1.c:56-62 | the frequency of a multiplier and a divider |
| Fll.Flls.SetFreq | kernel/fll-v1.c:66-78 | records the result, and sets the hardware to it exactly if the loop is on |
| Fll.Flls.Init | kernel/fll-v1.c:111-156 | the record, the hardware and the result; afterwards they agree exactly if the loop was on, nothing was recorded, or the hardware had that frequency anyway |
| FllRuns.Settles | kernel/fll-v1.c:66-167 | when the record agrees with the hardware after one operation, for each of setting, switching on and switching off |
| FllRuns.DisagreesIff | kernel/fll-v1.c:66-167 | in any sequence of operations a loop that is on disagrees with its record exactly when the last operation has just switched it on with a record, set while it was off, that the hardware does not have |
| FllRuns.SetBeforeInitIsLost | kernel/fll-v1.c:141-153 | from the reset values, 10 MHz that are set before the loop is switched on do not reach the hardware |
| FllRuns.OrderlyClientAgrees | kernel/fll-v1.c:66-167 | if frequencies are set only while the loop is on, record and hardware agree from the first record on |
| FllRuns.ResetIsSettled | kernel/fll-v1.c:111-156 | the reset values of the register are a start for which this holds |
| FllRuns.DoAll | kernel/fll-v1.c:66-167 | any operations on any loops take every loop through its own sequence |
| Cluster.RoundAfterArrival | kernel/cluster.c:132-140 | a core's arrival keeps the barrier consistent, whether or not it releases the others |
| Cluster.RoundAfterWake | kernel/cluster.c:132-140 | so does a core that takes its wake-up event and goes on |
| Cluster.InvariantKept | kernel/cluster.c:39-130 | every step of the controller and of any core keeps the invariant of the protocol |
| ClusterRuns.RunKeepsInvariant | kernel/cluster.c:39-130 | so it holds in every state of every run, for any number of cores and starts |
| ClusterRuns.NoneEntersEarly | kernel/cluster.c:57-63 | no core is inside or past the entry function before all are initialised |
| ClusterRuns.RoundsApart | kernel/cluster.c:132-140 | a core is at most one barrier behind another, and then still waiting there |
| ClusterHistory.StartsAreGiven | kernel/cluster.c:82-85 | the starts of a state are those among the steps of its run, with the functions they were given |
| ClusterHistory.ReturnedValueStays | kernel/cluster.c:63-70 | what the entry function returned to a core is its result in every later state |
| ClusterHistory.ReturnedBy | kernel/cluster.c:63-70 | a core that is back has returned in some step, with that value |
| ClusterHistory.FlagMeansDone | kernel/cluster.c:61-76 | once the flag was set and is 0 again, every core has returned from the function that was given to the start that was the latest when it entered, and the return value is what that function returned to core 0 |
| ClusterStacks.RebuildAndAllocate | kernel/cluster.c:93-109 | the outcome of a start's request for stacks, and their address, follow from the constants of the heap alone, whatever was allocated before |
| ClusterStacks.TwoStarts | kernel/alloc_pool.c:89-97 | two starts find the same stacks or both find none |
| Cluster.OutcomesKept | kernel/cluster.c:107-111 | if the stacks fit every start sets the flag, otherwise none does |
| ClusterClient.WaitMeansDoneIff | kernel/bench.c:263-273 | for a client that waits after each start: when a wait returns, all cores are back from the latest start exactly if the stacks fit; then it was the only start, every core ran the function that it was given, and the value is what that function returned to core 0; otherwise no core was fetched and the value is 0 |
| ClusterClient.NothingFetched | kernel/cluster.c:107-130 | without stacks all cores stay off and every wait that returns gives 0, whatever the client does |
| ClusterClient.FailedStartGivesZero | kernel/cluster.c:107-130 | without stacks another start and its wait always get through, return 0, and no core takes a step |
| ClusterClient.SecondStartNeverReturns | kernel/cluster.c:111-130 | once two starts have set the flag it stays set and no wait returns |
| ClusterClient.SecondStartSetsFlag | kernel/cluster.c:82-122 | if the stacks fit, a second start after a wait that has returned leads there |
| ClusterClient.WaitsForEver | kernel/cluster.c:111-130 | a run of one core in which the second wait does not return |
| ClusterRuns.NoDeadlock | kernel/cluster.c:132-140 | as long as a fetched core is not parked, some core can take a step |
| ClusterRuns.FlagHistory | kernel/cluster.c:65-76 | core 0 is parked exactly if it has cleared the flag; then the flag is set exactly if a start has set it again |
| ClusterRuns.RunsComplete | kernel/cluster.c:57-79 | every run has at most nine steps per core, and when none is left all cores are parked and the flag is set exactly if a start came after core 0 had cleared it |

`AllocClient`, `UartRuns`, `Tick.Readings`, `PrintParse.Echo` and `FllRuns.DoAll` are clients that the repository does not have: they call the modelled
operations in any order, so that what is proved of runs is proved of those operations and not only of a summary.

## Assumptions

* Search, replace and trim: byte sequences stand for memory; a resulting address is an offset. `match` and `replacement` do
  not alias the buffer. The configuration choices (back end, letter case) are parameters or their default values.
* Allocator: memory is an array of 8-byte cells; all addresses and sizes stay below 2^31. A freed block was allocated and
  has the size it was allocated with. Size 0 is allowed only while power is not tracked. `TrackPower` starts from
  counters that agree.
* UART: the SIZE register counts down from 64 to 1 and restarts; bytes arrive between calls, and during a poll between its
  steps while fewer than 64 are outstanding.
* Tick: the interrupt handler runs at the wrap before the thread goes on, and its stores are not interleaved with a read.
* Flash image: no encryption; names are ASCII, so a character is one byte; files do not change while they are read. The
  attributes that the script stores in each segment and file are parallel sequences of the writer. A field that does not
  fit its width raises an error in `struct.pack`; `BootFits` and `CompsFit` say when none does.
* Printing and parsing: `char` is unsigned, `long` has 32 bits and signed arithmetic wraps around, as on the target. The
  stream is the bytes that arrive before a timeout.
* FLL: the divider field is at least 1, as at reset, when a loop is switched on; the reference clock is 2^15 Hz.
* Cluster: steps are sequentially consistent, the barrier is that of the event unit, and entry functions return. The L1
  heap has room for a header, and the two numbers that describe it do not change.

## Left out

- TwoWay.MemrmemTwoWay: the result is fixed for all inputs, but it is claimed to be the rightmost occurrence only for needles that repeat one byte, because the code misses every other needle in some haystack.
- Memmem.Memrmem: with the two-way back end the result is that of `TwoWay.MemrmemTwoWay`.
- Alloc.Allocator.PosAllocAlign: for alignments of 8 and more the size is a multiple of 8; otherwise the tail that is freed overlaps the rounded block (`Alloc.UnroundedTailOverlaps`), and the list is no proper one any more.
- ReplaceInPlace.ReplaceString: with a longer replacement and a match that holds a zero byte only the bounds and the final zero are stated; a C string holds no such match.
- ReplaceInPlace.ReplaceLarger: the memory behind the buffer is part of the array, so that writing past the buffer has a meaning; what it does to other data is not modelled.
- Serials.Serial.PrintNumber: above base 36 only the bound on the buffer and the bytes in front of the first zero are stated, because the characters are no digits there.
- Crc32.BurstsAreDetected: bursts of up to four bytes, the width of the checksum; longer differences can collide.
- String ownership (assignment, append, move, reallocation) in arduino/cores/String.cpp: many near-identical branches.
- The Kmp and two-way searches read memory through sequences; reading outside the buffers is excluded by their bounds.
- kernel/alloc_pool.c, retention counters (`standby`) and `pos_alloc_dump`.
- `Stream::findUntil`, and floating point printing and parsing.
- Encryption, the version 1 header, ELF reading, the stimuli formats and file writing in bin/plp_flash_stimuli.py.
- `pos_freq_wait_convergence` and the loop's analogue settings in kernel/fll-v1.c: polling of hardware.
- A tick reading that takes one timer period or longer, and a counter read by another core.
- The second initialisation of a core in `cluster_start`, builds without a fabric controller, and HMR (kernel/hmr_synch.c).
- Drivers for I2C, SPI, GPIO and timers, register headers, interrupt set-up and busy delays.
