# Verified models of a systems-programming course repository

Thirteen modules model the parts of the repository that carry an algorithm or a protocol, and prove what those
parts are for. Code that changes buffers, streams or address spaces in place is modelled by classes, arrays and
loops proved against specification functions; code whose difficulty lies in interleavings is modelled by the
steps of its threads or processes, and what is proved holds in every state of every schedule.

| file | program | main results |
|---|---|---|
| `Fgrep.dfy` | substring count, serial and in overlapping windows | the serial count is the largest number of disjoint occurrences; the sum over the windows lies between it and it plus the number of threads minus one; the two agree on all files exactly if the needle has no border |
| `Crc32.dfy` | table-driven CRC-32 | table and unrolled loop equal the bit-serial CRC of section 8 of RFC 1952 (its table is checked entry by entry); chunks compose; every burst of up to 32 bits is detected, and 33 is too many; a message with its CRC behind it has a constant CRC |
| `SoStdio.dfy` | buffered streams | any disciplined sequence of calls does what a plain file with a cursor does; writing everything and reading it back, with the exact number of write calls |
| `ExecParser.dfy`, `Loader.dfy`, `ElfImage.dfy` | demand-paged ELF loader | a program that stays within its headers' flags reads the memory image the headers describe, with one fault a page, and pages permit what the flags call for |
| `Barrier.dfy` | reusable threshold barrier | phase safety, termination and progress; safety also with signal-and-wait as two steps, when a pulse could be lost exactly from two threads and one call on |
| `ProdCons.dfy` | producer and consumer on a stack | no lost wakeup, termination, conservation, stack order of the consumed items |
| `EventFd.dfy` | exit protocol over an eventfd | one exit in the counter at a time; right for a set of client numbers exactly if all are below 256; messages are not safe for any set of clients |
| `Blocked.dfy` | two searching threads | no deadlock, termination, and the right answer |
| `HexDump.dfy` | hex dump of a row | the buffer bound, the layout, and reading a line back |
| `Interlocked.dfy`, `MutexCounter.dfy` | counter modulo a limit | no increment is lost in either version; exactly when the interlocked one can pass its limit |
| `Basics.dfy` | | integers, remainders and sequences as sets, shared by the others |

C's arithmetic is written out where it can wrap: `size_t` and `unsigned int` in `Fgrep.dfy`, 32-bit ELF fields and
`int` conversions in `ExecParser.dfy` and `Loader.dfy`, 32- and 64-bit vectors in `Crc32.dfy` and `EventFd.dfy`.
The environment of the streams is the class `RegularFile`: a read delivers what is left up to the request and moves
the offset, a write is complete, lands at the offset and is logged, a seek moves the offset or fails without effect.
Constants such as the number of threads, the buffer capacity, the page size and the limit are parameters.

## Model

| member | source | states |
|---|---|---|
| Fgrep.SerialIsMaxPacking | Linux/Lab8/4-pfgrep/serial_fgrep.c:46-59 | the left-to-right scan that jumps over each hit counts as many pairwise disjoint occurrences as any choice of positions can |
| Fgrep.Exchange | Linux/Lab8/4-pfgrep/serial_fgrep.c:51-57 | starting the scan up to one needle length later loses at most one hit and gains none: why the jump is optimal |
| Fgrep.SplitScan | Linux/Lab8/4-pfgrep/parallel_fgrep.c:145-148 | cutting the start positions in two makes the two scans count at most one more than the single scan, never fewer |
| Fgrep.SplitScanBorderFree | Linux/Lab8/4-pfgrep/parallel_fgrep.c:145-148 | for a needle without a border the cut changes nothing |
| Fgrep.GuardInBounds | Linux/Lab8/4-pfgrep/parallel_fgrep.c:66 | the wrapping guard admits only positions whose comparison stays inside the window, if and only if the window misses at most one byte of a needle |
| Fgrep.Count | Linux/Lab8/4-pfgrep/parallel_fgrep.c:61-74 | the loop returns the scan's count of the window, which is the maximum packing of the window |
| Fgrep.ScanWindow | Linux/Lab8/4-pfgrep/parallel_fgrep.c:66-71 | scanning a window is scanning the file between the corresponding start positions |
| Fgrep.SplitFileMapping | Linux/Lab8/4-pfgrep/parallel_fgrep.c:89-108 | the array ends up holding, for each thread, the window defined by chunk size, needle size and the short-tail correction |
| Fgrep.WindowEnds | Linux/Lab8/4-pfgrep/parallel_fgrep.c:94-107 | when the last chunk exists, the windows start at the file's first byte, the last one ends with the file, and every other one ends a needle less one byte into its successor, or with the file if that would be past its end |
| Fgrep.WindowsPartition | Linux/Lab8/4-pfgrep/parallel_fgrep.c:94-107 | when the last chunk exists and holds a needle less one byte, the windows' start positions are consecutive ranges that cover every start position of the file once |
| Fgrep.WindowsFitIffSplitSafe | Linux/Lab8/4-pfgrep/parallel_fgrep.c:94-107 | all windows lie in the file and are long enough for the guard exactly under that condition |
| Fgrep.ParallelBounds | Linux/Lab8/4-pfgrep/parallel_fgrep.c:145-148 | serial count <= total <= serial count + threads - 1, and equality for a needle without a border |
| Fgrep.ParallelIsSerialIffBorderFree | Linux/Lab8/4-pfgrep/parallel_fgrep.c:61-148 | for any number of threads from two on, the total is the serial count on all files if and only if no proper non-empty prefix of the needle is its suffix |
| Fgrep.OverlapOvercounts | Linux/Lab8/4-pfgrep/parallel_fgrep.c:97-107 | a concrete family of files on which a needle with a border is counted too often |
| Fgrep.ThreadCode | Linux/Lab8/4-pfgrep/parallel_fgrep.c:76-87 | a thread reports the count of its own window |
| Fgrep.ParallelCount | Linux/Lab8/4-pfgrep/parallel_fgrep.c:128-148 | splitting, counting and summing gives a total within the bounds above |
| Crc32.StepSum | Windows/Lab2/2-crc/crc32.c:86-89 | one division step is linear: it takes exclusive-or sums to exclusive-or sums |
| Crc32.StepNInjective | Windows/Lab2/2-crc/crc32.c:86-89 | any number of division steps is invertible |
| Crc32.EntryIsBitSerial | Windows/Lab2/2-crc/crc32.c:30-83 | each of the 256 table entries is eight division steps of its index |
| Crc32.Do1IsByteStep | Windows/Lab2/2-crc/crc32.c:86-89 | the table look-up form of a byte equals the eight-step form |
| Crc32.ByteStepIsBitSerial | Windows/Lab2/2-crc/crc32.c:86-89 | a byte step feeds the byte's eight bits, low bit first, to the bit-serial register |
| Crc32.Do8 | Windows/Lab2/2-crc/crc32.c:98-101 | the eightfold unrolled step processes the next eight bytes in order |
| Crc32.UpdateCrc | Windows/Lab2/2-crc/crc32.c:108-124 | for every start value and length the result is the bit-serial CRC of the first `length` bytes, and 0 for a null buffer |
| Crc32.ChunkIndependence | Windows/Lab2/2-crc/crc32.c:108-124 | the CRC of a concatenation is the CRC of the second part started from that of the first |
| Crc32.GenerateCrc | Windows/Lab2/2-crc/crc.c:71-90 | however reads split the file, the loop computes the CRC of the whole file |
| Crc32.MessageBitsInjective | Windows/Lab2/2-crc/crc32.c:108-124 | different messages of equal length feed different bits |
| Crc32.RunBitsIsWord | Windows/Lab2/2-crc/crc32.c:108-124 | up to 32 bits change the register by exactly the word they spell, seen through the division steps |
| Crc32.BurstDetected | Windows/Lab2/2-crc/crc32.c:108-124 | messages of equal length that differ only within 32 consecutive bits, on any bit boundary, have different CRCs |
| Crc32.FourByteBurstDetected | Windows/Lab2/2-crc/crc32.c:108-124 | the same for a window of four consecutive bytes |
| Crc32.PolynomialLeavesNoTrace | Windows/Lab2/2-crc/crc32.c:86-89 | from every register state a set bit followed by the generator polynomial ends where zeros would have ended |
| Crc32.BurstOf33Undetected | Windows/Lab2/2-crc/crc32.c:108-124 | inside any message, for every start value, five bytes exist whose exchange changes only 33 consecutive bits and leaves the CRC the same: 32 is the limit |
| Crc32.Residue | Windows/Lab2/2-crc/crc32.c:108-124 | the CRC of any message followed by its own CRC, low byte first, is 0x2144df1c, whatever CRC it continues |
| Crc32.LeadingZeroSeen | Windows/Lab2/2-crc/crc32.c:113 | a zero byte in front of a message changes its CRC, unless it continues the CRC 0xffffffff: then never |
| Crc32.ZeroByte | Windows/Lab2/2-crc/crc32.c:113-122 | the CRC of a single zero byte is 0xd202ef8d |
| SoStdio.SoFile.constructor | Tema2-Biblioteca-Stdio/tema_linux/so_stdio.c:29-92 | opening in r, r+, w or w+: position 0, flags down, nothing buffered, the content kept in r and r+ and emptied in w and w+ |
| SoStdio.SoFile.Fflush | Tema2-Biblioteca-Stdio/tema_linux/so_stdio.c:143-159 | after a write the buffered bytes reach the file in one write call and what the program sees stays the same; otherwise refusal and no change |
| SoStdio.SoFile.Fseek | Tema2-Biblioteca-Stdio/tema_linux/so_stdio.c:161-180 | lands at the distance itself from the start, and at the size plus the distance from the end, and keeps the content; a relative seek counts from the kernel's offset; a refused seek loses the read-ahead, and with it the stream's consistency unless there was none |
| SoStdio.SoFile.RelativeSeek | Tema2-Biblioteca-Stdio/tema_linux/so_stdio.c:169-177 | a relative seek after input is off by what is left of the block, given by the file size, the position of the last refill and the bytes taken since |
| SoStdio.SoFile.Refill | Tema2-Biblioteca-Stdio/tema_linux/so_stdio.c:239-253 | from any state: up to a block of the file at the kernel's offset replaces the buffer, or, at the end of the file, only the flag changes |
| SoStdio.SoFile.TakeChar | Tema2-Biblioteca-Stdio/tema_linux/so_stdio.c:255-263 | the next byte of the buffer as a signed character and one step forward, or end of file when the recorded fill is used up |
| SoStdio.SoFile.Fgetc | Tema2-Biblioteca-Stdio/tema_linux/so_stdio.c:234-269 | from any state of the buffer: when a block is fetched first, which byte is delivered, and as which number from -128 to 127; when SO_EOF and the flag, when an error |
| SoStdio.SoFile.GetChar | Tema2-Biblioteca-Stdio/tema_linux/so_stdio.c:234-269 | without unwritten output it is the byte at the cursor, less 256 from 128 on, or SO_EOF and the flag at the end, and the stream stays consistent, if and only if the end is not hidden: known fill, or a block used up to its last byte; if it is hidden, a left-over byte is delivered and the position moves past the end |
| SoStdio.SoFile.GetAfterPut | Tema2-Biblioteca-Stdio/tema_linux/so_stdio.c:239-253 | input right after buffered output drops the output and delivers the byte it should have replaced, unless the file on disk is at its end |
| SoStdio.SoFile.Fputc | Tema2-Biblioteca-Stdio/tema_linux/so_stdio.c:272-294 | from any state of the buffer: where the character goes and as which byte, when a full buffer is flushed first, and when the character is refused |
| SoStdio.SoFile.PutChar | Tema2-Biblioteca-Stdio/tema_linux/so_stdio.c:272-294 | without read bytes in the buffer it is a one-byte write at the cursor of the file the program sees, or on a read-only stream a refusal that changes nothing else |
| SoStdio.SoFile.IsReading | Tema2-Biblioteca-Stdio/tema_linux/so_stdio.c:182-196 | stores the bytes at the cursor and, past the end of the file, the low byte of SO_EOF; or stops at once with an error |
| SoStdio.SoFile.Fread | Tema2-Biblioteca-Stdio/tema_linux/so_stdio.c:198-207 | the same in items, all of which it claims to have read; afterwards the fill of the block in the buffer is known exactly if the read fetched a block or found the buffer empty |
| SoStdio.SoFile.IsWriting | Tema2-Biblioteca-Stdio/tema_linux/so_stdio.c:209-222 | writes the bytes at the cursor in buffer-sized writes; only one byte if the end-of-file or the error flag is up, none on a read-only stream |
| SoStdio.SoFile.Fwrite | Tema2-Biblioteca-Stdio/tema_linux/so_stdio.c:224-232 | the same, and the return value is the number of items asked for in every case |
| SoStdio.SoFile.Fclose | Tema2-Biblioteca-Stdio/tema_linux/so_stdio.c:94-133 | the file on disk becomes what the program saw, with one more write call after output |
| SoStdio.Modes | Tema2-Biblioteca-Stdio/tema_linux/so_stdio.c:29-48 | only w is not for input, only r not for output |
| SoStdio.EofIsAlsoAByte | Tema2-Biblioteca-Stdio/tema_linux/so_stdio.h:31 | what so_fgetc returns for a byte equals SO_EOF exactly for the byte 255 |
| SoStdio.PutAfterInput | Tema2-Biblioteca-Stdio/tema_linux/so_stdio.c:272-294 | output at the end of the file with input in the buffer writes what was taken of the block once more in front of the character, or, after a full block, is refused |
| SoStdio.PutAtEnd | Tema2-Biblioteca-Stdio/tema_linux/so_stdio.c:143-159 | output at the end of the file, which section 7.21.5.3 of C11 allows also after input that met it, appends exactly the character if and only if no input is left in the buffer |
| SoStdio.Perform | Tema2-Biblioteca-Stdio/tema_linux/so_stdio.c:94-298 | each call in order returns what the unbuffered reference returns and keeps the stream in step with it: so_fputc gives its character, so_fwrite its count, so_ftell the cursor, so_feof whether input has met the end, so_fseek its success, so_fflush whether the last operation was output |
| SoStdio.Session | Tema2-Biblioteca-Stdio/tema_linux/so_stdio.c:94-298 | over any disciplined sequence of calls between opening and closing, all results and the final file are those of a file with a cursor; output is in order when no input is left in the buffer, input when no output is pending and the end is not hidden, a relative or failing seek when nothing is read ahead |
| SoStdio.WriteThenRead | Tema2-Biblioteca-Stdio/tema_linux/so_stdio.c:94-232 | writing n bytes and closing takes exactly n / 4096 rounded up write calls, all but the last of full buffers; any series of reads that fits returns the bytes in order |
| ExecParser.AlignDownRounds | Tema3-So-Loader/tema_linux/loader/exec_parser.h:12 | for every page size that is a power of two the bit mask rounds down to a multiple of it |
| ExecParser.CountLoads | Tema3-So-Loader/tema_linux/loader/exec_parser.c:176-180 | the first loop counts the segments that the second creates |
| ExecParser.ConvertHeader | Tema3-So-Loader/tema_linux/loader/exec_parser.c:193-205 | address, offset and both sizes move by the same amount, with 32-bit wrap-around; executable, writable and readable are the three lowest bits of the flags |
| ExecParser.ParseLoads | Tema3-So-Loader/tema_linux/loader/exec_parser.c:176-212 | the array holds the segments of the PT_LOAD headers in order, and the base address is the lowest of them |
| ExecParser.SegmentHasHeader | Tema3-So-Loader/tema_linux/loader/exec_parser.c:189-212 | every segment stands for a PT_LOAD header |
| ExecParser.HeaderHasSegment | Tema3-So-Loader/tema_linux/loader/exec_parser.c:189-212 | every PT_LOAD header has a segment |
| ExecParser.PermOfBits | Tema3-So-Loader/tema_linux/loader/exec_parser.c:198-205 | the masks of the flags pick their bits 0, 1 and 2 |
| Loader.FinalProt | Tema3-So-Loader/tema_linux/loader/loader.c:67-73 | the mprotect calls leave a page executable exactly for an executable segment, writable for a writable or executable one, readable if any flag is set |
| Loader.Process.FillPage | Tema3-So-Loader/tema_linux/loader/loader.c:57-66 | the page gets file bytes up to the segment's file size and zeros behind |
| Loader.Process.MappingPage | Tema3-So-Loader/tema_linux/loader/loader.c:31-74 | exactly the page of the address is mapped, with its part of the image; it is executable as the segment is, writable for a writable or executable segment, readable for any flag |
| Loader.Process.SegvHandler | Tema3-So-Loader/tema_linux/loader/loader.c:76-97 | handled if and only if some segment holds the address; then its page is mapped, otherwise nothing changes |
| Loader.Process.Fault | Tema3-So-Loader/tema_linux/loader/loader.c:76-97 | a first touch of a page keeps the paged memory equal to fully loaded memory and loses no earlier store |
| Loader.Process.Perform | Tema3-So-Loader/tema_linux/loader/loader.c:31-97 | each load, store or fetch returns what fully loaded memory returns, and faults if and only if its page never faulted before |
| Loader.Process.Run | Tema3-So-Loader/tema_linux/loader/loader.c:31-97 | over any run of accesses that the flags allow, the values are those of eager loading; the pages that fault are the pages touched, each once, at most as many as there are pages; nothing else is mapped, and no mapped page permits more than its segment's flags call for, but for stores to executable segments |
| Loader.Process.Refault | Tema3-So-Loader/tema_linux/loader/loader.c:76-97 | an access that a mapped page forbids: the handler maps the page again, the access stays forbidden, and the page holds what was loaded, without what was stored |
| Loader.Permissions | Tema3-So-Loader/tema_linux/loader/loader.c:67-73 | which accesses the flags allow, and which the handler's protection lets through |
| Loader.LoadSeesLastStore | Tema3-So-Loader/tema_linux/loader/loader.c:31-97 | what the values of eager loading are: a load returns what the last store to its address before it has stored |
| Loader.LoadSeesMemory | Tema3-So-Loader/tema_linux/loader/loader.c:31-97 | the same: a load without such a store returns what memory held at the start |
| Loader.TouchedBound | Tema3-So-Loader/tema_linux/loader/loader.c:42-51 | a run touches at most as many pages as the segments have |
| Loader.PageCountIsTight | Tema3-So-Loader/tema_linux/loader/loader.c:42-51 | that number of pages exceeds the segments' sizes by less than a page a segment |
| Loader.OrderedSegmentsShareNoPage | Tema3-So-Loader/tema_linux/loader/loader.c:84-92 | segments in address order, each from a page boundary on, meet the condition under which the loader is proved right |
| ElfImage.SegmentRealisesHeader | Tema3-So-Loader/tema_linux/loader/exec_parser.c:193-197 | the shifted segment puts at pVaddr + k the file byte at pOffset + k for k below the file size and 0 up to the memory size, and adds bytes only within the first page |
| ElfImage.LoadedIsElf | Tema3-So-Loader/tema_linux/loader/exec_parser.c:187-212 | the loaded segments hold the header's byte at every address that a header covers |
| ElfImage.ElfBytes | Tema3-So-Loader/tema_linux/loader/exec_parser.c:187-197 | in the described image, byte k of a header of type 1 is byte k of its part of the file, and 0 from the file size up to the memory size |
| ElfImage.LoadAndRun | Tema3-So-Loader/tema_linux/loader/loader.c:116-128 | parsing and running on demand gives every run within the headers' flags the values of the image the headers describe |
| Barrier.StepInv | Windows/Lab9/6-barrier/barrier.c:51-71 | every step, with signal-and-wait as one step or as two, keeps: one owner of the mutex, a counter equal to the arrivals of the phase, every thread in the phase or not yet out of the last one |
| Barrier.BarrierSafe | Windows/Lab9/6-barrier/barrier.c:51-71 | no thread leaves a phase before all have entered it, and completed phases differ by at most one, with signal-and-wait as one step or as two |
| Barrier.NeverStuck | Windows/Lab9/6-barrier/barrier.c:82-108 | while a thread is unfinished, some thread can step |
| Barrier.EveryRunEnds | Windows/Lab9/6-barrier/barrier.c:82-108 | every schedule is finite, with signal-and-wait as one step or as two |
| Barrier.EveryRunCompletes | Windows/Lab9/6-barrier/barrier.c:82-108 | with one step, a schedule that cannot be extended has brought all threads through all phases |
| Barrier.CanFinish | Windows/Lab9/6-barrier/barrier.c:51-71 | with signal-and-wait as one step every run can be completed |
| Barrier.LostPulse | Windows/Lab9/6-barrier/barrier.c:61-67 | with two steps, for any number of threads from two on and any number of calls from one on, a schedule after which no continuation completes |
| Barrier.PulseIsLostExactly | Windows/Lab9/6-barrier/barrier.c:61-67 | with two steps such a schedule exists if and only if there are two threads and a call; with one step never |
| ProdCons.Buffer.InsertItem | Linux/Lab8/7-prodcons/prodcons.c:32-36 | pushes the item, with no change below it |
| ProdCons.Buffer.RemoveItem | Linux/Lab8/7-prodcons/prodcons.c:38-42 | pops and returns the top |
| ProdCons.StepInv | Linux/Lab8/7-prodcons/prodcons.c:64-146 | every step keeps: one owner of the mutex, room or items before an action, and a sleeper's reason to sleep or its pending signal |
| ProdCons.NoLostWakeup | Linux/Lab8/7-prodcons/prodcons.c:90-134 | the threads never both sleep, and until both have finished one can step without a spurious wakeup |
| ProdCons.EveryRunCompletes | Linux/Lab8/7-prodcons/prodcons.c:64-146 | a run without spurious wakeups has at most 14 steps an item, and each such wakeup adds at most three; one that cannot be extended has finished with an empty buffer |
| ProdCons.StackPermutation | Linux/Lab8/7-prodcons/prodcons.c:32-42 | at every point produced = consumed + buffered, and no c, then a, then b with a < b < c was consumed |
| ProdCons.AllConsumed | Linux/Lab8/7-prodcons/prodcons.c:64-146 | when both have finished every item was consumed exactly once |
| EventFd.DecodesExactlyBytes | Linux/Lab11/2-epollpipe/epoll.c:39-47 | the server decodes a client's number if and only if it is below 256 |
| EventFd.ExitEvents | Linux/Lab11/2-epollpipe/epoll.c:27-42 | a second exit blocks while one is in the counter, a first never does, and both are recognised |
| EventFd.CounterLimit | Linux/Lab11/2-epollpipe/epoll.c:27-113 | a write that would bring the counter to 2^64 - 1 blocks and one that brings it to 2^64 - 2 does not; a counter is an exit exactly from 2^63 on |
| EventFd.NotifyInv | Linux/Lab11/2-epollpipe/epoll.c:183-185 | an exit is only ever written to an empty counter |
| EventFd.ReadEventInv | Linux/Lab11/2-epollpipe/epoll.c:99-113 | a read serves exactly one announced client that was not served before |
| EventFd.AlwaysInv | Linux/Lab11/2-epollpipe/epoll.c:92-134 | in every state the counter is 0 or the exit of the one client not yet served; pipes closed once each and counted |
| EventFd.RightExactlyForBytes | Linux/Lab11/2-epollpipe/epoll.c:92-134 | in all runs only announced clients' pipes are closed, none twice, all counted, if and only if all client numbers are below 256 |
| EventFd.NeverStuck | Linux/Lab11/2-epollpipe/epoll.c:92-134 | until all clients are served some client or the server can step |
| EventFd.EveryRunCompletes | Linux/Lab11/2-epollpipe/epoll.c:92-134 | every run is finite, and one that cannot be extended has closed each client's pipe exactly once |
| EventFd.MessageCanBeLost | Linux/Lab11/2-epollpipe/epoll.c:99-121 | whatever the other clients are, each client's message stays unread to the end of some run |
| EventFd.AllReadOnlyWithoutClients | Linux/Lab11/2-epollpipe/epoll.c:99-121 | all runs read all messages if and only if there are no clients |
| Blocked.StepLocks | Linux/Lab8/5-blocked/blocked.c:57-131 | each mutex is held exactly by the thread between its lock and unlock |
| Blocked.NeverDeadlocked | Linux/Lab8/5-blocked/blocked.c:57-131 | a thread holds at most one mutex, none while waiting, and until both are done one can step |
| Blocked.EveryRunEnds | Linux/Lab8/5-blocked/blocked.c:57-131 | every schedule, fair or not, is at most as long as the ranges allow and can be extended until both are done |
| Blocked.Outcome | Linux/Lab8/5-blocked/blocked.c:57-151 | at the end a flag is up if and only if one of the two ranges holds a hit; the value of a thread whose flag is up is the first hit of its range, and -1 otherwise |
| Blocked.StopsOnOthersHit | Linux/Lab8/5-blocked/blocked.c:57-131 | a thread that reads the other's flag up examines no further number |
| HexDump.Scnprintf | Linux/Lab1/2-lib/hexdump.c:33-42 | the text is cut to the space with room for the NUL, nothing behind it changes; with no space the result is -1 |
| HexDump.NumberShowsGroup | Linux/Lab1/2-lib/hexdump.c:88-120 | a group printed as a zero-padded number shows its bytes from last to first on a little-endian machine |
| HexDump.WriteGroups | Linux/Lab1/2-lib/hexdump.c:92-95 | the loop leaves the groups' text cut to the buffer |
| HexDump.WriteBytes | Linux/Lab1/2-lib/hexdump.c:123-130 | the loop leaves as many whole bytes as fit, without the last space |
| HexDump.HexDumpToBuffer | Linux/Lab1/2-lib/hexdump.c:68-145 | the buffer holds the specified line and a NUL within its length, for every group size but 0, and is unchanged behind them |
| HexDump.LineFits | Linux/Lab1/2-lib/hexdump.c:68-145 | the final index stays below the buffer length |
| HexDump.LineReadsBack | Linux/Lab1/2-lib/hexdump.c:75-134 | a strict reader, which accepts only lower-case digits and one space between groups, succeeds on the line: it gives back the single bytes that fitted, three characters each, or, if groups of 2, 4 or 8 bytes fill the row and the line was not cut, the whole row of at most 16 or 32 bytes |
| HexDump.BytePlace | Linux/Lab1/2-lib/hexdump.c:88-120 | in a line of groups, cut or not, the two digits of byte i of group k stand at their place, the last byte of a group first |
| HexDump.HexByte | Linux/Lab1/2-lib/hexdump.c:17-21 | the digits of a byte, high one first, are '0' to '9' for 0 to 9 and 'a' to 'f' for 10 to 15 |
| HexDump.AsciiPlace | Linux/Lab1/2-lib/hexdump.c:132-142 | with only spaces in front of it, byte j has its character j places after the ASCII column: itself from 32 to 126, a full stop otherwise; for single bytes that column is index 3 * rowsize + 1 whatever the length |
| HexDump.AsciiLength | Linux/Lab1/2-lib/hexdump.c:138-144 | the length of a line with its ASCII part: the padding may fill the buffer up to the NUL, the characters behind it leave one more place free |
| Interlocked.CountIsIncrements | Windows/Lab9/3-interlocked/interlocked.c:20-41 | in every state the counter is congruent to the increments modulo the limit, and not above them |
| Interlocked.FinalCount | Windows/Lab9/3-interlocked/interlocked.c:20-41 | the same for the final value and threads times rounds |
| Interlocked.ComparesWithLimit | Windows/Lab9/3-interlocked/interlocked.c:33 | a thread that compares leaves 0 if the counter is exactly the limit, and otherwise leaves it as it is |
| Interlocked.StaysAbove | Windows/Lab9/3-interlocked/interlocked.c:30-33 | once above the limit the counter is never reset again: it grows by the increments made |
| Interlocked.StaysWithinLimit | Windows/Lab9/3-interlocked/interlocked.c:30-33 | the counter never exceeds the limit in any run if and only if there is at most one thread or too few increments |
| Interlocked.Overshoot | Windows/Lab9/3-interlocked/interlocked.c:30-33 | a schedule that passes the limit, for every number of threads and rounds that allows it |
| MutexCounter.CountIsRemainder | Windows/Lab9/3-interlocked/interlocked.c:43-59 | whenever the mutex is free the counter is the number of increments modulo the limit, and it never exceeds the limit |
| MutexCounter.FinalValue | Windows/Lab9/3-interlocked/interlocked.c:43-59 | the final value is threads times rounds modulo the limit under every interleaving |

## Where the code differs from what it says

- The comment on the barrier's event says that it resets itself; the event is created with manual reset, and that is
  what lets one pulse release all waiting threads (Windows/Lab9/6-barrier/barrier.c:13, 34-39).
- `scnprintf` promises 0 for a buffer of size 0 and returns -1 (Linux/Lab1/2-lib/hexdump.c:30, 41).
- In a hex dump the padding may fill the buffer up to its NUL, while the characters behind it leave one more place
  free (Linux/Lab1/2-lib/hexdump.c:138-140).
- The parallel count is not the serial count for a needle that overlaps itself; `Fgrep.ParallelIsSerialIffBorderFree`
  gives the exact condition.
- `so_fseek` with SEEK_CUR after input counts from the kernel's offset, which is ahead of the stream by what is left of
  the block in the buffer (`SoStdio.SoFile.RelativeSeek`).
- `so_fread` clears the record of how much of the buffer is filled. Unless it fetches another block, the end of the
  file is then recognised only at a block's last byte; otherwise `so_fgetc` delivers a left-over byte and moves past
  the end (`SoStdio.SoFile.GetChar`). Past the end `so_fread` fills up with the low byte of SO_EOF and claims all items
  (`SoStdio.SoFile.Fread`).
- `so_fwrite` writes one character once the end-of-file or the error flag is up, none on a read-only stream, and
  reports all items in every case (`SoStdio.SoFile.Fwrite`). No seek lowers the end-of-file flag, and `so_fflush` fails
  unless the last operation was output.
- Output at the end of a file after input appends only when no input is left in the buffer (`SoStdio.PutAtEnd`).
- The interlocked counter is reset only by a thread that sees exactly the limit, so two increments in a row carry it
  past (`Interlocked.Overshoot`), and from then on it is never reset again (`Interlocked.StaysAbove`).
- The loader leaves every page of an executable segment writable (`Loader.Permissions`), and an access that a mapped
  page forbids faults again and again, each time losing what was stored on the page (`Loader.Process.Refault`).
- so_fgetc returns a byte as a signed character, so a byte 255 cannot be told from SO_EOF (`SoStdio.EofIsAlsoAByte`).
- A message may be lost when the server reads a client's exit before its pipe; every set of clients has such runs
  (`EventFd.MessageCanBeLost`, `EventFd.AllReadOnlyWithoutClients`).
- A message fills the server's buffer, and the NUL that is to end it is written one place behind the buffer
  (Linux/Lab11/2-epollpipe/epoll.c:116-119); reading a pipe in the model does not include that write.

## Left out

- SoStdio.SoFile.Fread: not claimed past the end of the file when the read continues a partly taken block that the file ends, because each character is then a left-over byte, as `SoStdio.SoFile.GetChar` says of one; nor right after buffered output, where `SoStdio.SoFile.GetAfterPut` gives the first character.
- SoStdio.SoFile.IsReading: the same.
- SoStdio.SoFile.Fwrite: not claimed right after input, because the buffered input would be written out in front of the data; `SoStdio.PutAfterInput` shows it at the end of the file.
- SoStdio.SoFile.IsWriting: the same.
- SoStdio.SoFile.constructor: does not model the modes a and a+, nor a file that cannot be opened or created, because the offset of an appending write is the kernel's.
- SoStdio.Session: the reference keeps the end-of-file flag up across seeks, as the code does; positions are unbounded, so streams beyond the 2 GiB of the C code's `int` positions are not modelled.
- Fgrep.Count: does not model an empty needle, on which the loop makes no progress, nor windows of 2^32 bytes or more, where the `unsigned int` index would wrap; in both cases the loop can run for ever.
- HexDump.HexDumpToBuffer: asks for a buffer of at least one character and, if there is anything to show, a group size other than 0, because the code writes the NUL in any case and divides by the group size.
- Loader.Process.Run: does not include accesses that the flags forbid, because the restarted instruction may fault for ever; `Loader.Process.Refault` says what one such fault does.
- Loader.Process.SegvHandler: does not model the restored default action of the signal beyond "nothing is mapped".
- Blocked.Outcome: takes the two unguarded writes of thread X as ordinary memory writes in program order; the C memory model gives no meaning to a race.
- Barrier.EveryRunCompletes: takes SignalObjectAndWait as one step, as `Barrier.NeverStuck` does; `Barrier.PulseIsLostExactly` says what happens with two, and safety does not depend on it. A waiting thread that the kernel takes out of its wait for a moment could also miss a pulse.
- Interlocked.CountIsIncrements: unbounded counter; it stays below 2^31 while threads times rounds does, as the lemma's bound shows.
- The threads and processes of Barrier, ProdCons, EventFd, Blocked and the counters are steps of a state machine over values, so sharing by reference is not part of those models.
- Append streams' sharing of an offset, `so_popen` and `so_pclose`, short reads and writes, allocation and close failures.
- The threads of the parallel count share only the read-only file, so `Fgrep.ParallelCount` runs them one after the other.
- Process start-up, the auxiliary vector, signal installation, the unused `segment->data` array and the validation of ELF headers.
- Comparing and writing CRC files, and the rest of `crc.c`.
- Command lines, printing, sleeping, random delays, epoll set-up and `waitpid`.
- The preprocessor assignment, the Windows stdio port, the shells, the sorting and allocation exercises: string and system-call plumbing, unfinished, or easy beside the rest.
