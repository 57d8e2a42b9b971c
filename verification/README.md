# Verification of the trace analysers and LEAK traffic tools

This project models the parts of the repository that compute something, in Dafny 4.11, and proves what they compute.

* **Trace lifetime analyser** (`analyze_trace.py`). `Analyzer` is the script's loop body as a step function on values: five insertion-ordered dictionaries, the emitted rows, and for each event either a new state or the exception the script would raise at that line. `History` is an independent reference: queries over event indices of a trace, with no tables. `Refinement.RunIsExact` proves that the two agree on **every** trace: the script raises at exactly the first event `History.Fault` condemns, with that exception, and until then every table entry, every dictionary order that a search can observe, and every row is the one read off the trace. No assumption about unique addresses is needed; `Lifecycle` derives what unique addresses and a lifecycle discipline add. `LifetimeAnalyzer` is the script itself as a class with ten parallel lists and five dictionaries, proved against `Analyzer`.
* **Double-zero detector** (`find_frag_double_zero.py`). `DoubleZero`, `ZeroReferences`, `ZeroingConservation` and the class in `DoubleZeroDetector`, in the same style.
* **Pattern streams** (`tools/TCP_*.c`, `tools/UDP_*.c`). The word LEAKLEAK... in `Pattern`; generators and checkers under any chunking, loss, reordering and truncation in `TcpStream` and `UdpStream`.
* **TLS echo** (`tools/sslecho.c`). `Echo` is a step system of a client and a server joined by two FIFO byte queues; a run is any sequence of enabled actions with any read sizes, including failed writes and reads on either side. The server leaves its loop at its first failed read.
* **Dump scanner** (`search_mem_dump.py`). `DumpScanner`, with Python's unbounded `&`, `~`, `<<` and `>>`.

Addresses are only compared for equality by the scripts, so they are integers. Timestamps are exact reals. Bytes of the word are characters.

Results that are not what one might expect of the tools:

* A page that hands out the same address twice stops the analyser when it is next allocated (`Lifecycle.DuplicateCrashes`), because the earlier fragment absorbs all updates.
* When timestamps never decrease, a fragment row's real use time is negative exactly when the fragment was finalised again, at a later time, after its last release; for other timestamps its sign is not characterised (`Timing.RealUseSign`, `Timing.RealUseCanBeNegative`).
* The assertion at line 157 of the analyser tests for an address in both head tables; `Lifecycle.HeadTablesOverlap` says exactly when that is.
* A recorded reference value of -1 need not mean "never referenced" (`ZeroReferences.MinusOneAfterReference`); it does when unreferences never outnumber references (`ZeroReferences.BalancedMinusOne`).
* The echo check compares against the transmit buffer, so it says nothing about what arrived and flags faithful echoes (`Echo.CheckCharacterised`, `Echo.FaithfulEchoFlagged`). A failed write of a non-empty packet is counted as sent. The drain loop can no longer end by equality exactly when that has happened, an echo was dropped, or the server left its loop with bytes unread (`Echo.DrainsEvenIff`; runs for each in `Echo.MiscountHappens`, `Echo.LossHappens`, `Echo.ServerStops`).
* A read error in the packet loop does not decide how the echo client ends: it ends with unequal totals exactly when a read fails in the drain loop (`Echo.HowItEnds`, `Echo.ReadErrorThenEven`).
* The UDP checker's "one error per altered byte" fails for the first byte of a datagram, except in the cases `UdpStream.FirstByteCountedOnce` lists.

`hide` statements in proof bodies only keep definitions out of a proof's context.

## Model

| member | source | states |
|---|---|---|
| `Refinement.RunIsExact` | analyze_trace.py:52-207 | for every trace: the run goes on iff no event is faulty by the history query; if so all five tables (contents and observable order) and all rows are those of the history; otherwise the exception is that of the first faulty event |
| `Refinement.PageAllocExact` | analyze_trace.py:55-76 | one page alloc from an exact state: fails at line 57 iff the page is live, at 65 or 70 for the first incomplete fragment of the parked page, else emits exactly its rows and restarts the page |
| `Refinement.FragAllocExact` | analyze_trace.py:78-88 | fails iff the page is parked; ignored off live pages; otherwise extends the page's fragments in trace order |
| `Refinement.FinalizeExact` | analyze_trace.py:92-116 | the nested first-match search stamps exactly the fragment of the oldest live page, earliest on it, with that address; else the live head with that address |
| `Refinement.FragFreeExact` | analyze_trace.py:118-140 | fails iff the page is parked; always takes the skb's pending location; stamps the earliest live fragment with that address on the page |
| `Refinement.PageFreeExact` | analyze_trace.py:142-153 | a live page with fragments becomes parked, one without disappears, others are ignored |
| `Refinement.HeadKmallocExact` | analyze_trace.py:155-162 | fails iff the address is live and parked; otherwise a new entry, keeping the dictionary position of a live address |
| `Refinement.SkbWithFragsExact` | analyze_trace.py:164-169 | raises iff an unfinalised live head is older than every live head of the skb; otherwise renames the oldest live head of the skb |
| `Refinement.HeadFreeExact` | analyze_trace.py:171-186 | fails iff the address is parked; takes the location only for a live head, which it parks |
| `Refinement.KmallocExact` | analyze_trace.py:188-201 | a parked head becomes its row, or raises iff it was never finalised |
| `Refinement.FragRowsExact` | analyze_trace.py:62-72 | the row loop emits one row per fragment in order, or stops at the first missing field |
| `Analyzer.FindPtr` | analyze_trace.py:6-10 | first position with the address, -1 iff there is none |
| `Analyzer.FindPage` | analyze_trace.py:94-99 | first page in dictionary order that holds the address |
| `Analyzer.FindHead` | analyze_trace.py:166-169 | first head of the skb, unless an entry without skb_ptr comes before it |
| `PageRefinement.FindPageIsTarget` | analyze_trace.py:94-99 | the page search finds the fragment that precedes all others with that address by page age and then fragment age |
| `HeadRefinement.FindHeadIsTarget` | analyze_trace.py:166-169 | the head scan raises iff blocked in the history and otherwise finds the oldest live head of the skb |
| `History.LastWriteIsLatest` | analyze_trace.py:108-109 | the reference write stamp is the latest event that finalises the fragment |
| `History.LastReleaseIsLatest` | analyze_trace.py:139-140 | the reference release stamp is the latest event that releases the fragment |
| `History.LastRenameIsLatest` | analyze_trace.py:164-169 | the reference allocating function comes from the latest event that renames the head |
| `History.PendingIsLatest` | analyze_trace.py:203-207 | a pending location is the latest consume of the skb with no taker since, both directions |
| `Conservation.FragmentsConserved` | analyze_trace.py:60-88 | on every run the multiset of fragments taken from live pages equals that in rows plus active pages plus freed pages (page, address, allocating function) |
| `Conservation.HeadsConserved` | analyze_trace.py:155-201 | on every run the multiset of skb_head_kmalloc addresses equals kmalloc rows plus active plus freed heads plus overwritten ones |
| `Timing.RowsAreLawful` | analyze_trace.py:62-72 | every row has lifetime = use + free time; with non-decreasing timestamps use and free time are not negative, real use time is at most use time, page free time lies between 0 and free time, and kmalloc rows have real use time at least 0 |
| `Timing.RowOfFragment` | analyze_trace.py:62-72 | which row of the run each fragment of a reallocated page becomes, and that it is the history's row |
| `Timing.RealUseSign` | analyze_trace.py:70 | for non-decreasing timestamps that row's real use time is at least 0 iff every finalize that reached the fragment after its last release carries the release's own timestamp |
| `Timing.RealUseCanBeNegative` | analyze_trace.py:70 | a concrete six-event trace whose only row has real use time -1 |
| `Lifecycle.PageTablesExact` | analyze_trace.py:55-153 | on every run a page is active iff its last page event is an alloc, freed iff it was freed since its last alloc with a fragment taken before the first such free, never both; its fragments are exactly those taken since that alloc, in order, with their latest stamps |
| `Lifecycle.HeadTablesExact` | analyze_trace.py:155-207 | on every run both head tables and the pending locations hold exactly the entries of the history |
| `Lifecycle.DeadAssertions` | analyze_trace.py:101-107 | the assertions at lines 103, 107 and 152 fail on no trace |
| `Lifecycle.HeadTablesOverlap` | analyze_trace.py:157 | an address is in both head tables iff since its last tracked free it had an skb_head_kmalloc but no kmalloc or small-head event |
| `Lifecycle.HeadTablesDisjoint` | analyze_trace.py:187-191 | the tables are disjoint when every head reuse is announced by such an event |
| `Lifecycle.UniqueTargets` | analyze_trace.py:92-109 | with unique live addresses a fragment is finalised by every finalize of its address and released by every free of its address and page |
| `Lifecycle.UniqueStamps` | analyze_trace.py:134-140 | hence the stamps of every fragment of a live or parked page are the latest finalize of its address, and the latest free of its address and page, since its alloc and before the page's end |
| `Lifecycle.SearchIgnoresOrder` | analyze_trace.py:95-99 | on a run whose live fragments have unique addresses, the page search finds the same page for any other dictionary order |
| `Lifecycle.DuplicateIsDeaf` | analyze_trace.py:135-140 | when a live page hands out an address twice, the later fragment is never stamped |
| `Lifecycle.DuplicateCrashes` | analyze_trace.py:60-72 | reallocating a parked page that handed out an address twice stops the run |
| `Lifecycle.OneReleasePerConsume` | analyze_trace.py:129-130 | no consume location is attributed to two releases |
| `Lifecycle.NotFoundCondition` | analyze_trace.py:131-133 | a release is NOT FOUND iff every earlier consume of its skb was already taken |
| `Lifecycle.FragFreeFunction` | analyze_trace.py:126-140 | the row of a fragment shows "NOT FOUND" when every earlier consume of the releasing skb was already taken, and otherwise the location of the pending one |
| `Lifecycle.HeadFreeFunction` | analyze_trace.py:176-201 | the same for the row of a head |
| `Lifecycle.DisciplinedRuns` | analyze_trace.py:52-207 | every trace obeying the lifecycle discipline runs to the end, has an empty multiset of overwrites and keeps the head tables disjoint |
| `LifetimeAnalyzer.ColumnsAlign` | analyze_trace.py:33-42 | the ten lists have one length and position i of them is row i |
| `LifetimeAnalyzer.LifetimeAnalyzer.IndexCond` | analyze_trace.py:6-10 | the loop returns the first match or -1 |
| `LifetimeAnalyzer.LifetimeAnalyzer.SearchPages` | analyze_trace.py:94-99 | the nested loop finds the first page and fragment position |
| `LifetimeAnalyzer.LifetimeAnalyzer.SearchHeads` | analyze_trace.py:166-169 | the scan's three outcomes |
| `LifetimeAnalyzer.LifetimeAnalyzer.AppendRow` | analyze_trace.py:192-201 | appending one value to each list appends exactly one row |
| `LifetimeAnalyzer.LifetimeAnalyzer.EmitFrags` | analyze_trace.py:62-72 | the loop appends the rows of all fragments or stops at the first missing field |
| `LifetimeAnalyzer.LifetimeAnalyzer.ProcessEvent` | analyze_trace.py:53-207 | one trip round the loop updates fields and lists as the step function, or stops with its exception |
| `LifetimeAnalyzer.LifetimeAnalyzer.Process` | analyze_trace.py:52-207 | the whole loop reaches the state of the run, or stops with its exception |
| `LifetimeAnalyzer.LifetimeAnalyzer.Table` | analyze_trace.py:209-211 | one printed line per row, with the derived column numeric exactly on fragment rows; zip drops nothing |
| `DoubleZero.RunIsExact` | find_frag_double_zero.py:26-59 | the detector stops iff a live page is allocated again; until then its tables hold, per live page and fragment, the time of the last alloc and the zeroings since then in order with their reference values, all reports so far are those of the history, and the warnings are the zeroings of pages not live |
| `DoubleZero.ZeroingsComplete` | find_frag_double_zero.py:46-49 | the indices a page entry stands for are all and only the zeroings of that fragment on that page in the range |
| `DoubleZero.ReportedIffZeroedTwice` | find_frag_double_zero.py:31-39 | a page free adds a report with these records iff the page is live and the fragment was zeroed at least twice since its last alloc, at those times and reference values |
| `DoubleZero.ReportsByFirstZeroing` | find_frag_double_zero.py:37-39 | the reports a page free adds are of different fragments, in the order of first zeroing |
| `ZeroReferences.RecordedMinusOne` | find_frag_double_zero.py:49 | on every run a record of a live page carries -1 iff no reference to the fragment precedes that zeroing, or unreferences exceed references by one from the first reference to it |
| `ZeroReferences.BalancedMinusOne` | find_frag_double_zero.py:50-59 | when a fragment's unreferences never outnumber its references, a recorded -1 means exactly "never referenced" |
| `ZeroReferences.MinusOneAfterReference` | find_frag_double_zero.py:49 | a five-event trace whose run records -1 for a referenced fragment |
| `ZeroingConservation.ZeroingsConserved` | find_frag_double_zero.py:36-49 | zeroing events = warnings + records of live pages + records of pages already freed |
| `DoubleZeroDetector.DoubleZeroDetector.PrintDoubles` | find_frag_double_zero.py:37-39 | the loop prints exactly the fragments with more than one record |
| `DoubleZeroDetector.DoubleZeroDetector.Process` | find_frag_double_zero.py:26-59 | the whole loop reaches the state of the run, or stops at the assertion |
| `TcpStream.FillPacket` | tools/TCP_client.c:52-55 | position i of the buffer is letter (index + i) mod 4 of L, E, A, K, and the index is carried on |
| `TcpStream.SendPackets` | tools/TCP_client.c:48-61 | the wire holds the accepted prefix of each packet; a write error ends the loop |
| `TcpStream.WireByte` | tools/TCP_client.c:48-61 | every accepted byte of every packet is on the wire after the accepted bytes before it, and is the letter at its place in the client's stream of packets |
| `TcpStream.Serve` | tools/TCP_server.c:88-110 | the error count is the number of bytes (read j, position i) that differ from the letter at the sum of the earlier reads' lengths plus i, over all reads up to the first empty one or the failed one that exits |
| `TcpStream.PayloadByte` | tools/TCP_server.c:88-110 | byte i of read j is in the received stream at the sum of the earlier lengths plus i, and nothing else is in it |
| `TcpStream.WrongBytesCount` | tools/TCP_server.c:101-108 | counting wrong bytes read by read and counting mismatches of the whole stream agree for any cutting |
| `TcpStream.ErrorsAreDisplaced` | tools/TCP_server.c:101-108 | for any list of word segments the count is the total length of the segments displaced by a non-multiple of 4 |
| `TcpStream.MismatchesOfTransfer` | tools/TCP_server.c:88-110 | for any cutting of the delivered bytes into reads, the mismatches are the accepted bytes of the writes before which the cumulative loss was not a multiple of 4 |
| `TcpStream.ErrorsOfTransfer` | tools/TCP_server.c:88-110 | the server's loop on such a connection, ended by an empty read, returns that count |
| `TcpStream.FullOutputAccepted` | tools/TCP_client.c:48-61 | complete writes of any sizes put a prefix of the word on the wire and misalign nothing |
| `TcpStream.OneShortWrite` | tools/TCP_client.c:56-58 | after one short write all later bytes are errors iff the loss is not a multiple of 4 |
| `UdpStream.FillDatagram` | tools/UDP_client.c:48-51 | position i of the 64000-byte buffer is letter (index + i) mod 4 of L, E, A, K, and the index is carried on |
| `UdpStream.SendDatagrams` | tools/UDP_client.c:47-61 | every datagram sent has 64000 bytes, byte i being letter i mod 4 of L, E, A, K |
| `UdpStream.Realigned` | tools/UDP_server.c:88-93 | a pattern letter sets the index to its position, any other byte keeps the old index |
| `UdpStream.UdpServer.Receive` | tools/UDP_server.c:79-104 | one trip round the loop on a truncated or empty datagram, including the stale first byte, and the wiped buffer |
| `UdpStream.UdpServer.Loop` | tools/UDP_server.c:74-108 | the receive loop over any results of recvfrom, ended by an error: its final index and its error count are those of the list of datagrams |
| `UdpStream.ListOfDatagrams` | tools/UDP_server.c:74-108 | after any list of datagrams the index is, mod 4, the position of the latest first byte that is a letter (or the initial index) plus all bytes received since; the errors are the sum over the datagrams of the received bytes that differ from the word at the index so carried or selected |
| `UdpStream.PiecesAddNothing` | tools/UDP_server.c:74-102 | the loop adds no errors for any list of word pieces: lost, reordered, duplicated, truncated or empty |
| `UdpStream.ErrorsFromIndex` | tools/UDP_server.c:88-102 | for any non-empty datagram the errors added are the received bytes that differ from the word read from the index its first byte selects |
| `UdpStream.FittingIndexCounts` | tools/UDP_server.c:88-102 | when that index fits where the datagram starts, one error for each altered byte received, whichever bytes are altered |
| `UdpStream.AlteredBytesCounted` | tools/UDP_server.c:95-102 | with the first byte intact, one error for each altered byte received |
| `UdpStream.FirstByteAltered` | tools/UDP_server.c:88-102 | the exact error count when the first byte of a datagram of any length is altered |
| `UdpStream.FirstByteCountedOnce` | tools/UDP_server.c:88-102 | that count is one per altered byte iff the new byte is a pattern letter and two bytes are received, or it is none and it is received alone or the previous index fits |
| `UdpStream.FirstByteCountedWrong` | tools/UDP_server.c:88-102 | a 64000-byte datagram with one altered byte and 1023 errors |
| `Pattern.MismatchesOfPiece` | tools/TCP_server.c:101-108 | a piece read at another position has no mismatch or only mismatches |
| `Pattern.NoMismatch` | tools/TCP_server.c:101-108 | the count is zero iff the bytes are the word |
| `Pattern.Letters` | tools/TCP_client.c:43-47 | the word is L, E, A, K at positions 0, 1, 2, 3 mod 4 |
| `Echo.FillTx` | tools/sslecho.c:293-295 | byte i of the 65536 in txbuf is letter i mod 4 of L, E, A, K |
| `Echo.CheckBuffer` | tools/sslecho.c:320-324 | the loop counts mismatches with the running letter |
| `Echo.CheckAsWritten` | tools/sslecho.c:320-324 | on txbuf it flags the whole read iff the bytes received before are not a multiple of 4, whatever arrived |
| `Echo.PacketSizes` | tools/sslecho.c:298 | the packet lengths of the model are exactly the values of (r & ~0xf) % 32768 for natural r |
| `Echo.InvHolds` | tools/sslecho.c:222-344 | every interleaving and chunking keeps received ++ return ++ held ++ forward = sent, sent a prefix of the word, exact byte accounting under failures, outstanding bytes at every packet read, and bounded totals |
| `Echo.RunAccount` | tools/sslecho.c:222-344 | in every run both totals and the length of every queue are sums over the run's actions: attempted, written, fetched, dropped and read bytes; the server is up iff no read of its failed, and a read error is recorded iff a client read failed |
| `Echo.LoopAccount` | tools/sslecho.c:297-344 | where the client is follows from its actions: i writes and i reads before packet i, exit from the packet loop once (after 100 writes, at a failed write or at a failed read), exit from the drain loop once |
| `Echo.HundredPackets` | tools/sslecho.c:297-328 | when nothing fails, the drain loop is reached only after exactly 100 writes |
| `Echo.HowItEnds` | tools/sslecho.c:328-347 | a finished client left the drain loop either by its condition, with equal totals, or by a failed read in that loop, with received below sent |
| `Echo.ReadErrorThenEven` | tools/sslecho.c:311-344 | a run with a failed read in the packet loop that still ends with equal totals |
| `Echo.AnyPacketsComplete` | tools/sslecho.c:297-344 | for any 100 non-empty packet lengths there is a run that sends them, reads all of them back unflagged and ends with equal totals |
| `Echo.EchoIsPrefix` | tools/sslecho.c:222-241 | what was received is a prefix of what was sent and of the word |
| `Echo.NoDeadlock` | tools/sslecho.c:309-329 | while the client waits and nothing was lost or miscounted, a read, a server write or a server read is possible iff the server is still in its loop or bytes have already come back |
| `Echo.DrainTerminates` | tools/sslecho.c:328-344 | from any state in the drain loop, client and server together take no more steps in it than the bytes under way have hops left, plus one while the server is in its loop |
| `Echo.CleanExit` | tools/sslecho.c:328-347 | without a read error the client ends only with equal totals, everything sent received, nothing miscounted or lost |
| `Echo.MiscountNeverDrains` | tools/sslecho.c:299-307 | a failed non-empty write or a dropped echo keeps received below sent for ever, so only a read error ends the client |
| `Echo.DrainsEvenIff` | tools/sslecho.c:222-344 | from a drain state of any run the client can still end with equal totals iff no failed write was counted, no echo was dropped, and the server is in its loop or left nothing unread |
| `Echo.FailureFreeDrain` | tools/sslecho.c:328-344 | a drain in which nothing fails, from a state satisfying that condition, is bounded, and when it can go no further the client has ended with equal totals and everything it wrote |
| `Echo.MaximalRunEndsEven` | tools/sslecho.c:222-344 | a whole run in which nothing fails and that can go no further has ended with equal totals and everything sent received |
| `Echo.RunsTerminate` | tools/sslecho.c:222-344 | every run, whatever fails, is finite: at most 9825803 steps of client and server together |
| `Echo.MiscountHappens` | tools/sslecho.c:299-307 | after any packets, a write of any drawn length can fail, and its length is counted as sent |
| `Echo.LossHappens` | tools/sslecho.c:238-240 | a run that drops an echo |
| `Echo.ServerStops` | tools/sslecho.c:224-231 | a run whose server read fails with bytes unread and nothing miscounted or dropped, and from which the client cannot end with equal totals |
| `Echo.CheckCharacterised` | tools/sslecho.c:320-342 | in every run a read is flagged entirely or not at all as above; the same check on the received bytes of a lossless echo flags nothing, so the two agree iff the bytes before are a multiple of 4 |
| `Echo.FaithfulEchoFlagged` | tools/sslecho.c:320-324 | a run with a faithful echo that the check as written flags |
| `Echo.TotalsFit` | tools/sslecho.c:287-299 | both totals stay far below 2^32 |
| `DumpScanner.Scan` | search_mem_dump.py:13-18 | an address is listed iff the four bytes there are L, E, A, K; addresses increase, so none is listed twice; each page split recombines |
| `DumpScanner.OccurrencesApart` | search_mem_dump.py:18 | two occurrences are at least 4 apart |
| `DumpScanner.SkipFour` | search_mem_dump.py:18 | from any start, restarting 1 or 4 bytes after each hit gives the same list of hits |
| `DumpScanner.SplitRecombines` | search_mem_dump.py:15-16 | a pair is the mask-and-shift split of i iff the offset is in 0..4095 and they recombine to i |
| `DumpScanner.MaskIsMod` | search_mem_dump.py:7-9 | masking with k low ones is the remainder by 2^k, and with the complement the rest, for every integer |
| `DumpScanner.BitAndBits` | search_mem_dump.py:15-16 | the modelled & is conjunction bit by bit |

## Left out

- Trace text parsing (`analyze_trace.py:15-29`, `find_frag_double_zero.py:5-21`): events start typed, with the fields their branch reads, so a field missing from a trace line is not modelled.
- Printing and diagnostic messages; the rows, the reports and the number of warnings are kept.
- Floating-point rounding of timestamps: times are exact reals.
- Aliasing of entry objects: entries are values in the dictionaries, which the classes reassign; the scripts never share an entry between two tables.
- The state of the ten lists after an exception: the script ends there without printing.
- LifetimeAnalyzer.LifetimeAnalyzer.FinalizeSkbAround: has no statement for the assertion at line 107, which `Lifecycle.DeadAssertions` shows cannot fail.
- Echo: server accept and shutdown are not modelled, and SSL_write of 0 bytes is taken not to succeed.
- Error counters of the TCP and UDP servers are unbounded.
- `tools/sendfile.c`, socket and TLS setup, buffer wiping apart from the UDP receive buffer, and the vendored busybox tree: system calls or foreign code with nothing of this repository's own to prove.
