# Verified model of tbtools

tbtools is a set of tools for debugging Thunderbolt and USB4 systems. This project models its
algorithmic parts in Dafny and proves what they are for. Device memory is a map, a file is a sequence
of lines, and metadata tables and parsed lines are given.

- `KmsgBatch.dfy`, `TraceLog.dfy`: the kernel log server and its readers. Lines are grouped into
  records in bounded batches; records are appended without a lock and published, truncated, read and
  cleared under one. All processes interleave freely, and the files refine a simple log.
- `RecordFilter.dfy`, `ErrorScan.dfy`: filtering with compression of repeated records, and the error
  scanner that reads the log incrementally while others truncate and clear it.
- `RouteAlgebra.dfy`, `PathDiscovery.dfy`, `PathTable.dfy`: route strings as paths in a tree, the walk
  over path tables that discovers a tunnel, and reading those tables from registers. `RouteBits` ties
  the byte form of routes to 64-bit arithmetic.
- `Polynomials.dfy`, `Crc8.dfy`, `Crc32.dfy`: both CRCs as polynomial division, and the 256-entry
  table of CRC-32C (section 12.1 of RFC 3720 and Appendix B of RFC 4960).
- `RegisterFields.dfy`: bit fields, and the register cache with its write-back.
- `Drom.dfy`: the entry iterator, when it ends, and the structural entries of the device ROM.
- `XDomain.dfy`: annotation of inter-domain packets in two passes.
- `MergeLogs.dfy`: merging logs by timestamp.
- `NumberEdit.dfy`: the number editor, and the paired hexadecimal and binary editors of a register.

State that the source changes in place is a class or an array; each method is proved against a
function, and the theorems are about that function and about whole runs of it.

## What the code relies on

- Path discovery: routers have unique routes in a domain with no zero byte below the depth, which is
  at most 7; an adapter carries the route of its router; entries name existing adapters; a parent's
  adapter towards a child is a lane adapter facing down; no entry sends traffic back out of its input
  adapter where the walk meets it. The last condition cannot be dropped
  (`PathDiscovery.UTurnNeverEnds`). For any devices, `PathDiscovery.RunsForeverIff` says when a walk
  never ends, and `PathDiscovery.WalkFailsIff` when it panics or gives up.
- Finding the host router by parents: every device has its parent (`PathDiscovery.HostReachedIff`).
- Register fields: values fit their field, because `Register::set_field` does not mask them.
  `RegisterFields.OthersKeptIff` and its neighbours say exactly when that goes wrong.
- The registers of one cached space have different offsets.
- The DROM image has a body, and its entries are non-empty, inside the image, and long enough for their
  kind; text entries are terminated, UTF-8, or of even length, as their kind asks
  (`DromIterator.DrainSucceedsIff`).
- The static tables contain every packet kind and the inter-domain header.
- Reading a log with `merge-logs.py` needs a timestamp in its first line.

## Where the code falls short of its promise

- A timeout between an accepted record and its continuation line loses the line
  (`KmsgBatch.RecordsIntactIff`, `KmsgBatch.TimeoutLosesContinuation`).
- A DROM entry of length zero makes the iterator return it for ever. An image without a body, an entry
  that is too long for the image, and one that is too short for its kind or has a malformed text make
  it panic (`DromIterator.OutcomeIff`, `DromCodec.ParsePanicsIff`, `DromIterator.EmptyBodyIff`).
- The `disabled` flag of an unknown adapter entry is never set, because a disabled adapter is reported
  as unused first (`DromCodec.DecodedInRange`).
- Offsets of packet fields wrap after 65536 double words (`XDomain.OffsetsIff`), and an inter-domain
  packet can then make the parser panic (`XDomain.XDomainPanicsIff`).
- A read response or write request with fewer double words than its metadata has entries makes the
  parser panic (`XDomain.PacketPanicsIff`).
- An image built from no entries cannot be read back, because creating the iterator panics
  (`DromDecoder.DecodeImage`).

## Model

| member | source | states |
|---|---|---|
| KmsgBatch.IterateValid | scripts/trace.sh:714-767 | One line or timeout keeps the batch state valid: at most MAX_BATCH_RECS headers are read, no more are added than read, the added counter grows by exactly the records appended, the sequence number never goes back; the batch is complete after a timeout or the 200th header |
| KmsgBatch.IterateAccepts | scripts/trace.sh:635-767 | One event appends exactly what a single unbounded pass over header groups would accept next, and leaves the rest of that pass to come |
| KmsgBatch.RunServerAccepts | scripts/trace.sh:714-835 | The same over any number of events and batches, for any valid state in which the server starts |
| KmsgBatch.BatchesInvisible | scripts/trace.sh:714-835 | From the initial state to a final timeout, the records are those of one unbounded pass: each header with its continuation lines, accepted headers only; batch boundaries cannot be seen |
| KmsgBatch.RecordedIncrease | scripts/trace.sh:651-669 | The sequence numbers of the recorded headers increase strictly |
| KmsgBatch.RecordedPriority | scripts/trace.sh:610-624 | In any run, every recorded header has a priority, and it is at most 4 |
| KmsgBatch.HeaderRecordedIff | scripts/trace.sh:635-672 | After any events that end in a timeout, a header is recorded if and only if it is 1 to 1000 numbers after the position, at most 100000 microseconds before it, and of priority at most 4, the first header having no position to compare with; the position moves exactly when it is in step, whatever the priority |
| KmsgBatch.RecordedWholeIff | scripts/trace.sh:635-767 | A stream that ends in a timeout is recorded whole if and only if all its headers have priority at most 4, numbers that rise by 1 to 1000, and timestamps that fall by at most 100000 from one to the next |
| KmsgBatch.HeadersRecordedIff | scripts/trace.sh:635-767 | The same for a stream of headers alone |
| KmsgBatch.TimeoutsInvisibleIff | scripts/trace.sh:729-766 | Removing the timeouts gives the same groups if and only if no continuation line follows a timeout before the next header |
| KmsgBatch.RecordsIntactIff | scripts/trace.sh:714-835 | What the server records is what one unbounded pass without timeouts would record if and only if no timeout falls between an accepted header and one of its continuation lines |
| KmsgBatch.UntornRecords | scripts/trace.sh:714-835 | Absent a timeout inside a record, batches and timeouts together are invisible in what is recorded |
| KmsgBatch.TimeoutLosesContinuation | scripts/trace.sh:729-766 | A concrete stream for which a timeout inside a record loses a continuation line |
| KmsgBatch.KmsgBatchEmit | scripts/trace.sh:690-702 | The loop emits the four numbers with commas between them, a semicolon, and the pending line |
| KmsgBatch.EmitGetRoundTrip | scripts/trace.sh:690-712 | kmsg_batch_get gives back every batch that kmsg_batch_emit printed, whatever the pending line holds, when the first four fields are numbers |
| KmsgBatch.BatchSurvives | scripts/trace.sh:690-712 | The batch itself, with its counters and position in decimal and its pending line as text, comes back unchanged from what the subshell printed |
| TraceLog.NextKeepsInv | scripts/trace.sh:460-534 | Every server, update, read and clear step keeps the invariant: the record file is the log from first_rec on, first_rec + num_recs + pending is the number of records ever appended, and num_recs stays below TRACE_MAX_LINES + TRACE_SLACK |
| TraceLog.GetRefines | scripts/trace.sh:868-910 | A read of the file is the read of the abstract log, with the announced numbers and the lines |
| TraceLog.NextRefines | scripts/trace.sh:450-558 | Every concrete step is a step of the abstract log with the same reply; a clear, which the files only flag, takes effect at once in the abstract log |
| TraceLog.ClearHides | scripts/trace.sh:868-910 | A read that clears empties what can be read and what the record info announces; other reads change nothing |
| TraceLog.UpdatePublishes | scripts/trace.sh:460-528 | An update makes all uncleared records of the log readable, but only the last 10000 if there are 10100 or more |
| TraceLog.RunRefines | scripts/trace.sh:450-558 | Both of these in every state of every interleaving |
| TraceLog.RunMonotone | scripts/trace.sh:460-534 | Over a run the log only grows, and neither the first nor the last readable record number ever decreases |
| TraceLog.ReadsAreSlices | scripts/trace.sh:868-910 | Every read in a run returns exactly the records numbered since to since + dump of the final log, as it announces |
| TraceLog.LogFollowsServer | scripts/trace.sh:714-835 | Whatever updates, reads and clears come in between, the log is what the batch server records from the lines fed to it |
| TraceLog.InfoReportsPosition | scripts/trace.sh:460-477 | In any run the record info reports the sequence number and timestamp that the server was at when it last updated |
| TraceLog.LogContents | scripts/trace.sh:714-835 | After a timeout the log holds exactly the accepted groups of all lines fed, with increasing sequence numbers and priorities of at most 4, and all groups if and only if their headers are orderly |
| TraceLog.TraceFiles.CheckKmsgHeader | scripts/trace.sh:635-672 | The check accepts a header exactly if it is in step and of priority at most 4, and moves the position exactly if it is in step |
| TraceLog.TraceFiles.ProcessDmesgLine | scripts/trace.sh:674-688 | The pending header is checked, and appended with its continuation lines if accepted |
| TraceLog.TraceFiles.ProcessDmesgLineBatch | scripts/trace.sh:714-767 | From any counters, which are reset if unexpected, the loop consumes a prefix of the input, is the same as feeding those events one by one, and stops at a full batch or a timeout; the log invariant survives if no record was waiting |
| TraceLog.TraceFiles.TakeEvent | scripts/trace.sh:730-757 | One round of that loop is one feed step of the system |
| TraceLog.TraceFiles.UpdateRecInfo | scripts/trace.sh:460-477 | The pending records are published |
| TraceLog.TraceFiles.TruncateRecs | scripts/trace.sh:484-528 | The file is cut to the last lines, and the record numbers move on, when the flag is set or the log too long; otherwise nothing changes |
| TraceLog.TraceFiles.UpdateRecFile | scripts/trace.sh:778-791 | The locked update is the update step of the system and leaves the log bounded and the batch counters at zero |
| TraceLog.TraceFiles.GetRecordInfo | scripts/trace.sh:536-558 | The record info is the one of the step system and nothing changes |
| TraceLog.TraceFiles.ClearRecs | scripts/trace.sh:450-458 | A clear only sets the flag |
| TraceLog.TraceFiles.GetRecs | scripts/trace.sh:868-910 | A locked read, with or without a clear, is the read step of the system |
| RecordFilter.PrintRepeated | scripts/trace.sh:955-981 | After it the lines account for all matching records so far: one repetition is an ordinary line with its own time, more are one line with their number and the time of the last |
| RecordFilter.DumpRecs | scripts/trace.sh:1093-1193 | The match count of the compressing pass is the number of records that match one by one, matched plus unmatched is the number of records read, the lines are those of the longest runs of equal records with consecutive numbers, each with the right time, and expanding them gives the matching messages in order; under ONLY each printed message matches the expression, under EXCLUDE none does |
| RecordFilter.CountIsWanted | scripts/trace.sh:983-1010 | The match count is the number of records whose device is accepted and whose message matches, for the ONLY filter, or does not, for the EXCLUDE filter |
| RecordFilter.MatchingAreWanted | scripts/trace.sh:983-1010 | The matching records are exactly such records of those read; with a device expression each has an accepted device |
| RecordFilter.CountExtremes | scripts/trace.sh:983-1010 | If all messages match the expression and all devices are accepted, ONLY counts all records and EXCLUDE none; if no message matches, it is the other way round |
| RecordFilter.EndRun | scripts/trace.sh:955-981 | The repetitions of a run are counted with the run, and printed as nothing, one line, or one repeat line |
| RecordFilter.ExplainsExpands | scripts/trace.sh:955-981 | Lines that account for a sequence of records, with their times, expand to the messages of those records |
| ErrorScan.CountMatchingConcat | scripts/trace.sh:983-1010 | Match counts of consecutive reads add up |
| ErrorScan.ScanExtendsHistory | scripts/dp-suspend-resume.sh:655-718 | A scan extends the scanned record numbers with strictly larger ones that name the records seen, and the cursor neither goes back nor passes the end of the log |
| ErrorScan.ScanMissesDropped | scripts/dp-suspend-resume.sh:633-643 | After a scan every unscanned record number below the cursor was truncated or cleared and is within the reported dropped count |
| ErrorScan.TotalsExtend | scripts/dp-suspend-resume.sh:645-653 | A scan keeps filtered plus unfiltered totals equal to the records scanned, in all and in the running cycle, and sets the last counts to those of that cycle |
| ErrorScan.SysNextKeepsInv | scripts/dp-suspend-resume.sh:655-718 | Every step of the consumer and of the other processes keeps all of this |
| ErrorScan.RunInv | scripts/dp-suspend-resume.sh:645-718 | Over every interleaved run: each record is scanned at most once, the totals count exactly the scanned records, nothing is missed but dropped records, each cycle starts where the one before stopped scanning, and the last counts are those of the cycle of the last scan |
| ErrorScan.CursorMonotone | scripts/dp-suspend-resume.sh:700-705 | Over every run the cursor never goes back |
| ErrorScan.UndisturbedCheck | scripts/dp-suspend-resume.sh:655-705 | Without interference one check scans exactly the unread records up to MAX_REC_SCAN |
| ErrorScan.DroppedAreReported | scripts/dp-suspend-resume.sh:633-643 | Both halves of a check report as dropped the number of the first readable record, and as dropped in the cycle how far that is beyond the start of the cycle |
| ErrorScan.ErrorScanner.CalcDroppedErrors | scripts/dp-suspend-resume.sh:633-643 | The dropped counts: in all, and since the start of the cycle but not negative |
| ErrorScan.ErrorScanner.AskRecordInfo | scripts/dp-suspend-resume.sh:666-682 | The first half of a check reports the drops and decides how many records to scan |
| ErrorScan.ErrorScanner.ScanRecords | scripts/dp-suspend-resume.sh:691-705 | The second half reads, counts and moves the cursor as the scan step does |
| ErrorScan.ErrorScanner.TestCycleInit | scripts/dp-suspend-resume.sh:1529-1541 | A new cycle resets the current counts and starts at the cursor |
| RouteAlgebra.DepthUnique | src/device.rs:294-296 | The depth is the only number d with byte d - 1 non-zero and only zero bytes above |
| RouteAlgebra.PathInjective | src/device.rs:294-296 | Routes with equal adapter paths are equal |
| RouteAlgebra.DownstreamPath | src/debugfs.rs:1147-1153 | Going downstream appends the adapter to the path and adds one to the depth |
| RouteAlgebra.UpstreamPath | src/debugfs.rs:1130-1136 | Going upstream from a well-formed route drops the last byte of the path and stays well-formed |
| RouteAlgebra.UpstreamOfDownstream | src/debugfs.rs:1130-1153 | Downstream through any adapter and then upstream is the identity |
| RouteAlgebra.DownstreamOfUpstream | src/debugfs.rs:1130-1153 | Upstream and then downstream comes back if and only if the depth is one or the byte below the last is not zero |
| RouteAlgebra.UpstreamOfIllFormed | src/debugfs.rs:1130-1136 | A concrete route with a zero byte for which it does not come back |
| RouteAlgebra.DownstreamAdapterIff | src/debugfs.rs:1608-1616 | downstream_adapter(parent, child) is a if and only if a is not zero and the route of the child is that of the parent extended by a |
| RouteAlgebra.AncestorPath | src/debugfs.rs:1130-1136 | n upstream routes on, the path has lost its last n bytes; depth many steps give the route of the host router |
| RouteAlgebra.UpstreamSortsFirst | src/device.rs:690-703 | A parent sorts before its child |
| RouteBits.LessBits | src/device.rs:690-703 | The byte order of routes is the order of the 64-bit numbers |
| RouteBits.MaskBits | src/debugfs.rs:1130-1136 | Masking a 64-bit route to its low k * 8 bits keeps its low k bytes and clears the others |
| RouteBits.OrBits | src/debugfs.rs:1147-1153 | Or-ing a shifted adapter number into a 64-bit route changes only byte k |
| RouteBits.DepthBits | src/device.rs:294-296 | A 64-bit route is below 1 << (k * 8) if and only if its depth is at most k |
| PathDiscovery.EntryFirst | src/debugfs.rs:1331-1335 | The lookup of a HopID finds the first entry with it if there is one |
| PathDiscovery.AdapterFirst | src/debugfs.rs:1658-1663 | The lookup of a number finds the first adapter with it if there is one |
| PathDiscovery.RouterFirst | src/debugfs.rs:1139-1161 | The lookup of a route finds the first router with it in the domain if there is one |
| PathDiscovery.StepWellFormed | src/tunnel.rs:370-394 | On a well-formed topology one round of the loop follows the table entry over the link to the router behind it, or stops for want of an entry or a router; it neither panics nor gives up |
| PathDiscovery.StepDirection | src/tunnel.rs:370-394 | A round that does not turn back goes further up or turns down while on the way up, and goes down while on the way down |
| PathDiscovery.WalkIsSimple | src/tunnel.rs:357-398 | A walk that goes up and then only down visits no router twice |
| PathDiscovery.WalkBounded | src/tunnel.rs:357-398 | Such a walk has at most depth(source) + maximum depth + 1 routers |
| PathDiscovery.DiscoverPath | src/tunnel.rs:357-398 | If the walk meets no entry that turns back, except at the source, the loop terminates within that bound; the path goes up and then only down, is a chain of valid table entries over links with matching HopIDs, and cannot be extended; it is None exactly when the source has no entry |
| PathDiscovery.NoUTurnOnWalk | src/tunnel.rs:357-398 | No walk meets such an entry if no path table has one |
| PathDiscovery.RunsForeverIff | src/tunnel.rs:357-398 | For any devices at all, the walk goes on for ever if and only if it takes more steps than there are entries in the path tables |
| PathDiscovery.OneOutcome | src/tunnel.rs:357-398 | For any devices at all, a walk goes on for ever if and only if it never stops, and it stops with only one outcome |
| PathDiscovery.WalkFailsIff | src/tunnel.rs:357-398 | For any devices at all, the walk panics if and only if one of its first steps, one more than there are entries in the path tables, meets an entry to a missing adapter or a lane adapter whose next route under- or overflows; it gives up if and only if one of them has a next router without the adapter to come in by |
| PathDiscovery.ParentFromIff | src/debugfs.rs:1464-1478 | On a well-formed topology parent_from finds a router of the domain one level up whenever there is one, for routers through their upstream adapter and for remote hosts by route, and never underflows |
| PathDiscovery.ClimbPath | src/debugfs.rs:1464-1478 | n parents on, the device found is a router of the domain whose path is the original one without its last n bytes |
| PathDiscovery.HostReachedIff | src/debugfs.rs:1464-1478 | Depth many parents reach the host router from every device, and it has no parent, if and only if every device below the host router has a router above it |
| PathDiscovery.PathUnique | src/tunnel.rs:357-398 | With unique routers a source position has only one such complete chain, so the contract of the loop determines its result |
| PathTable.EntryIff | src/debugfs.rs:706-718 | A register holds a path entry if and only if its bit 31 is set |
| PathTable.SameEntryIff | src/debugfs.rs:706-718 | Two valid registers hold the same entry if and only if they agree in bits 0 to 6 and 11 to 16 |
| PathTable.EntryBitsIff | src/debugfs.rs:706-718 | A register holds an entry if and only if bit 31 is set, bits 0 to 6 are the output HopID and bits 11 to 16 the output adapter, the bits of a number being taken by halving it |
| PathTable.EncodedIff | src/debugfs.rs:1274-1296 | The table has an entry if and only if its input HopID is at least the minimum and the register at twice that offset holds the bits of its output HopID and adapter |
| PathTable.TableRoundTrip | src/debugfs.rs:1274-1296 | Registers that hold the bits of a list of entries are read as that list |
| PathTable.ReadPaths | src/debugfs.rs:1274-1296 | The loop collects the entries of the even registers from the minimum HopID on, in order; an empty table becomes None and without a minimum HopID the table stays as it was; it has an entry exactly if the register of its HopID holds the bits of its output HopID and adapter |
| PathTable.LookupIff | src/debugfs.rs:1274-1335 | Looking up a HopID finds an entry if and only if the HopID is at least the minimum and its register is valid and holds that entry |
| PathTable.EntriesAreOwn | src/debugfs.rs:1274-1296 | Every entry names the adapter it was read from as its input adapter |
| PathDiscovery.UTurnIsWellFormed | src/tunnel.rs:357-398 | Two routers whose entries send the traffic back form an otherwise well-formed topology |
| PathDiscovery.UTurnNeverEnds | src/tunnel.rs:357-398 | On it the walk never ends: the condition on U-turns is needed |
| PolyDivision.RunDivides | src/util.rs:283-293 | The shift register performs polynomial division: dividend = quotient * divisor + register |
| PolyDivision.DivisionUnique | src/util.rs:283-293 | A dividend has only one quotient and remainder |
| PolyDivision.RunIsRemainder | src/util.rs:283-293 | The register is the remainder and nothing else is |
| PolyDivision.RunAffine | src/util.rs:283-293 | The registers of three streams add up to that of their sum |
| PolyDivision.HighDivision | src/util.rs:344-348 | Dividing several bits at once is looking up the division of the high part and adding it to the rest moved up |
| PolyDivision.BurstDetected | src/util.rs:283-293 | Streams that differ only within as many consecutive bits as the register has give different registers, for any common prefix and suffix |
| PolyDivision.OddErrorsDetected | src/util.rs:283-293 | If the divisor has an even number of terms, streams that differ in an odd number of bits have different registers |
| Crc8.ComputeCrc8 | src/util.rs:280-296 | The two loops compute the CRC function |
| Crc8.CrcDivides | src/util.rs:280-296 | That function is polynomial division by x^8 + x^2 + x + 1 over the bits of the data, highest first |
| Crc8.CrcIsRemainder | src/util.rs:280-296 | The CRC is the remainder of the data with ones added at the top, and no other byte is |
| Crc8.BurstChangesCrc | src/util.rs:280-296 | Different messages of one length that differ only within 8 consecutive bits have different CRCs |
| Crc8.CrcParity | src/util.rs:280-296 | The CRC has an odd number of ones if and only if the data has |
| Crc8.OddErrorsChangeCrc | src/util.rs:280-296 | Messages of one length that differ in an odd number of bits have different CRCs |
| Crc8.AppendedCrc | src/util.rs:280-296 | Data followed by its CRC has CRC 0 |
| Crc8.CrcAffine | src/util.rs:280-296 | The CRCs of three messages of one length add up to the CRC of their sum |
| Crc32.TableIsRight | src/util.rs:302-340 | Each of the 256 entries of the table is the byte divided bit by bit |
| Crc32.TableStep | src/util.rs:345-348 | One lookup step divides by the eight bits of one byte |
| Crc32.CrcByTable | src/util.rs:342-351 | With such a table the chunked loops compute the remainder of the data, complemented; the chunking has no effect |
| Crc32.ComputeCrc32 | src/util.rs:301-352 | So does crc32 with its own table, for every byte string |
| Crc32.CrcIsRemainder | src/util.rs:301-352 | The complement of the CRC is the remainder under reflected division by the CRC-32C polynomial, and no other number is |
| Crc32.BurstChangesCrc | src/util.rs:301-352 | Different messages of one length that differ only within 32 consecutive bits have different CRCs |
| Crc32.CrcParity | src/util.rs:301-352 | The CRC has an odd number of ones if and only if the data has |
| Crc32.OddErrorsChangeCrc | src/util.rs:301-352 | Messages of one length that differ in an odd number of bits have different CRCs |
| Crc32.CrcUnique | src/util.rs:301-352 | The CRC is determined by the data |
| Crc32.AppendedCrc | src/util.rs:301-352 | Data followed by its CRC, lowest byte first, has the CRC 0x48674bc7, for all data |
| Crc32.CrcAffine | src/util.rs:301-352 | The CRCs of three messages of one length add up to the CRC of their sum |
| RegisterFields.GenMaskBits | src/util.rs:33-35 | Bit k of the mask is set if and only if low <= k <= high |
| RegisterFields.ReadBackIff | src/debugfs.rs:570-612 | A field write is read back if and only if the value fits the field |
| RegisterFields.OthersKeptIff | src/debugfs.rs:570-582 | The other bits survive if and only if no bit of the value lands outside the field on a bit that was clear |
| RegisterFields.SettersAgreeIff | src/util.rs:271-275 | The unmasked and the masked setter agree under exactly the same condition |
| RegisterFields.NeverSpillsIff | src/debugfs.rs:570-582 | They agree for every register if and only if the excess bits of the value are all shifted out at the top |
| RegisterFields.UnfittingWriteSpills | src/debugfs.rs:570-582 | A concrete value that does not fit and overwrites the neighbouring field |
| RegisterFields.BitIsField | src/util.rs:231-237 | A register bit reads and writes exactly that bit, and is the field of width one |
| RegisterFields.FieldsAreARecord | src/debugfs.rs:570-612 | With disjoint fields, after any fitting writes each field reads as the last write to it |
| RegisterFields.UnnamedBitsStay | src/debugfs.rs:570-582 | Bits of no field are untouched by any fitting writes |
| RegisterCache.EditsKeepCoherence | src/debugfs.rs:559-582 | After any edits an unchanged register still holds the value read from the device, and the cached values are those of the device edited directly |
| RegisterCache.ChangedIff | src/debugfs.rs:559-582 | After any edits a register is marked as changed if and only if it was before or some edit set a field of it or gave it a value it did not have |
| RegisterCache.FlushWrites | src/debugfs.rs:679-690 | Flushing makes the device hold every cached value and leaves all other offsets alone |
| RegisterCache.FlushEqualsDirectEdits | src/debugfs.rs:679-690 | Flushing after any edits makes device memory equal to having made the edits on it in order |
| RegisterCache.RunMirrors | src/debugfs.rs:559-690 | Over any run of edits, write-backs and reads, with the changed flags left set by a write-back, the device equals having made on it directly, in order, the edits that were written, and the cache shows the edits not dropped by a read |
| RegisterCache.Register.SetRegisterValue | src/debugfs.rs:559-564 | The value is stored and the changed flag is set only by a different one |
| RegisterCache.Register.SetRegisterField | src/debugfs.rs:570-582 | The bits of the field become those of the value, a bit above it is set if it was or the unmasked value sets it, the bits below stay, and the flag is always set |
| RegisterCache.WriteChanged | src/debugfs.rs:679-690 | The loop writes the changed registers in list order |
| DromTiling.SlicesTile | src/drom.rs:500-539 | The slices handed to the decoder are the body, in order and without overlap |
| DromTiling.SlicesSized | src/drom.rs:500-539 | The first byte of every slice is its length |
| DromTiling.TilingUnique | src/drom.rs:500-539 | Any cutting of the body into entries with correct lengths is the one the iterator makes |
| DromCodec.CollectMappings | src/drom.rs:407-423 | The loop decodes one mapping for each three bytes and ignores the rest |
| DromCodec.CollectRanks | src/drom.rs:445-455 | The loop decodes one ranking record for each byte |
| DromCodec.DecodeEncode | src/drom.rs:292-467 | Any adapter, USB3 port mapping or DPTX ranking entry in range decodes back from its layout, whatever ignored bytes follow it |
| DromCodec.DecodedInRange | src/drom.rs:292-467 | The decoder only gives such entries in range; an adapter entry is never reported as disabled |
| DromCodec.DecodedFields | src/drom.rs:292-467 | Every field of every decoded structural entry is the number in its bits of its byte, found by division, whatever the other bits are |
| DromCodec.DecodedKind | src/drom.rs:292-467 | The two highest bits of the second byte, its low six bits and the first adapter of that number decide the kind of an entry |
| DromCodec.Utf8Iff | src/drom.rs:363-371 | The text check accepts exactly the concatenations of code points as RFC 3629 encodes them |
| DromCodec.KindOfFirst | src/drom.rs:309-310 | The lookup finds the first adapter with the number if there is one |
| DromCodec.ParsePanicsIff | src/drom.rs:292-482 | Decoding an entry panics if and only if it is too short for its kind, an adapter entry counting as what the adapter is, or its text is not terminated, not UTF-8 or of odd length where the kind asks for these |
| DromIterator.AcceptedIff | src/drom.rs:635-668 | An image with length n in byte 14 and the low half of byte 15, whatever the other half, is accepted if and only if it is 13 bytes longer than n and, before version 3, n is at least 9; the body starts at 22 then and at 16 from version 3 on |
| DromIterator.EmptyBodyIff | src/drom.rs:635-668 | An accepted image has no body, so that entries() reads past its end, if and only if the length in byte 14 and the low half of byte 15 is 9 before version 3 and 3 from then on |
| DromIterator.EmptyBodyAccepted | src/drom.rs:635-668 | Such an image exists |
| DromIterator.OutcomeIff | src/drom.rs:490-539 | Draining the iterator ends if and only if there is a body and no entry reached is empty, too long or undecodable; it panics if and only if there is no body or the first such entry is not empty; it goes on for ever if and only if that entry is empty |
| DromIterator.OffendingIff | src/drom.rs:490-539 | There is no such entry if and only if the lengths cut the body into entries that can all be decoded |
| DromIterator.DrainSucceedsIff | src/drom.rs:490-668 | All entries of an accepted image can be read if and only if the length in its bytes 14 and 15 leaves a body, which is cut exactly into decodable entries |
| DromIterator.DromEntries.Next | src/drom.rs:525-538 | One call decodes the slice at the offset and moves on by its length, or ends, or panics |
| DromDecoder.Drain | src/drom.rs:490-539 | Unless an empty entry is reached, the loop terminates; it fails if and only if iterating panics, and otherwise gives the decoded slices in order |
| DromDecoder.DecodeImage | src/drom.rs:635-668 | In an accepted image whose body is the layouts of a list of entries, the slices decode to that list; iterating it ends if and only if the list is not empty, and panics otherwise |
| DromDecoder.ReadImage | src/drom.rs:500-668 | An image with the header of its length and the layouts of a list of entries as its body is accepted, and reading it through the iterator gives back the list; this fails for the empty list only |
| XDomain.FindMetadata | src/trace.rs:512-527 | The lookup finds an entry if and only if one exists for the offset with the wanted or no packet type, and prefers the wanted one |
| XDomain.FirstEntry | src/trace.rs:512-527 | The lookups give the first entry for an offset, or for an offset and packet type |
| XDomain.BitFieldByName | src/debugfs.rs:369-394 | A bit field is found by its long or short name in whatever case, the first one that has it |
| XDomain.BitFieldReads | src/trace.rs:347-356 | A bit field reads as the number n if the double word is hi * 2^(high + 1) + n * 2^low + lo with n and lo within their bits |
| XDomain.BitFieldHolds | src/trace.rs:347-356 | Every double word is of that form for the number that the bit field reads as |
| XDomain.TypeNameHolds | src/trace.rs:559-567 | A packet type is the name that the table has for the number in those bits, and nothing else |
| XDomain.TypedMetadata | src/trace.rs:544-571 | If a double word is the first to hold a number with a name in its packet type bits, all double words after it without other metadata get that of the packet type with that name |
| XDomain.UuidIs | src/trace.rs:573-592 | The protocol is given by the values of the double words named UUID, in order, if there are exactly four |
| XDomain.PacketNumbers | src/device.rs:816-831 | Which packets have which number; only reads and writes share theirs with their replies |
| XDomain.DataStart | src/trace.rs:612-635 | The data starts after the metadata of a read response or write request, after the first double word with the properties generation in an inter-domain packet, and there is none in other packets |
| XDomain.FieldMetadata | src/trace.rs:544-592 | Each double word of a packet with a known protocol gets the control metadata, else that of the header, else the entry of the protocol for the packet type that the first naming double word before it gives, else the untyped entry |
| XDomain.SomeFirst | src/trace.rs:544-571 | Either no earlier double word names the packet type or there is a first one that does, so these cases are all |
| XDomain.OffsetsIff | src/trace.rs:598-606 | Field i holds double word i with offset i for all i if and only if the packet has at most 65536 double words |
| XDomain.ParseXDomainHeader | src/trace.rs:529-542 | The first pass, in place, fills in header metadata where there was none |
| XDomain.ParseXDomainData | src/trace.rs:544-571 | The second pass, in place, is the declarative annotation although it learns the packet type on the way |
| XDomain.ParseXDomain | src/trace.rs:573-592 | Both passes; the protocol is known only if exactly four double words are named UUID |
| XDomain.ParsePacket | src/trace.rs:594-641 | The whole parser gives the declaratively specified packet |
| XDomain.XDomainPanicsIff | src/trace.rs:624-635 | Where overflow is checked, inter-domain parsing panics if and only if the first double word with the properties generation bit field is the last one before a multiple of 65536 |
| XDomain.PacketPanicsIff | src/trace.rs:594-641 | The whole parser panics if and only if a read response or write request has fewer double words than its metadata has entries, or the data start of an inter-domain packet overflows |
| XDomain.ShortPacketsParse | src/trace.rs:594-641 | Below 65536 double words only such a short read response or write request makes the parser panic, and no inter-domain packet does |
| MergeLogs.GroupsKeepLines | scripts/merge-logs.py:16-36 | Cutting a log before each timestamp keeps every line once and in order, and each entry is one timestamp with its continuation lines |
| MergeLogs.SortKeeps | scripts/merge-logs.py:38-39 | The stable sort loses and duplicates nothing |
| MergeLogs.SortAscending | scripts/merge-logs.py:30-39 | The stable sort by time puts ties in reading order |
| MergeLogs.AscendingUnique | scripts/merge-logs.py:30-39 | There is only one such order |
| MergeLogs.HeapPop | scripts/merge-logs.py:38-39 | Popping takes a least entry and leaves the others |
| MergeLogs.PushLog | scripts/merge-logs.py:16-36 | The reading loop pushes exactly the entries of a log, numbered in reading order, and fails if and only if a non-empty log starts without a timestamp |
| MergeLogs.PopAll | scripts/merge-logs.py:38-39 | The printing loop gives the entries in ascending order |
| MergeLogs.MergeLogs | scripts/merge-logs.py:8-39 | For any number of logs the output is the texts of the stable sort by timestamp of all entries, in that order; the program fails, printing nothing, if and only if some non-empty log starts without a timestamp |
| NumberText.ParseIff | src/bin/tbman/app.rs:975-976 | A text of valid digits that fits its width fails to parse if and only if it is empty, and denotes a 32-bit number |
| NumberText.ParseSigned | src/bin/tbman/app.rs:975-976 | A sign in front of digits changes nothing, and a number of more than 32 bits does not parse |
| NumberText.CharDigitIff | src/bin/tbman/views.rs:325-343 | The digits are 0 to 9 and a to f in either case, with their values, and typing makes them lower case |
| NumberText.FormatDigits | src/bin/tbman/app.rs:983-991 | A number is shown in lower-case digits of its base |
| NumberText.FormatBack | src/bin/tbman/app.rs:983-991 | A zero-padded number reads back |
| NumberEdit.EventKeepsValid | src/bin/tbman/views.rs:405-437 | Every event keeps the cursor in the text and the text to valid digits within the width |
| NumberEdit.CallbackIff | src/bin/tbman/views.rs:314-352 | The edit callback is called if and only if the text changed |
| NumberEdit.TypedDigit | src/bin/tbman/views.rs:325-343 | Typing a digit of the base puts exactly that digit, in lower case, at the cursor if there is room; nothing else is inserted |
| NumberEdit.BackspaceUndoes | src/bin/tbman/views.rs:325-352 | Backspace takes back an inserted character, text and cursor |
| NumberEdit.EditRegisterShows | src/bin/tbman/app.rs:968-1002 | After an edit Update is disabled if and only if the text is empty; otherwise both editors show its number |
| NumberEdit.PressKeepsInv | src/bin/tbman/app.rs:968-1002 | Every key on either editor keeps the invariant: whenever Update is enabled both texts denote the same 32-bit number |
| NumberEdit.Run | src/bin/tbman/app.rs:1063-1091 | The invariant holds after every sequence of keys on a dialog opened on any register |
| NumberEdit.RunShowsLastEdit | src/bin/tbman/app.rs:968-1002 | After any run Update is enabled if and only if there was an edit and the last one left a text, and both editors then show the number of that text |
| NumberEdit.UpdateWritesLastEdit | src/bin/tbman/app.rs:1004-1046 | Update writes exactly that number |
| NumberEdit.NumberEditView.Insert | src/bin/tbman/views.rs:325-343 | In-place insertion, refused at full width and for invalid digits |
| NumberEdit.NumberEditView.Remove | src/bin/tbman/views.rs:345-352 | In-place removal at or before the cursor |
| NumberEdit.NumberEditView.HandleEvent | src/bin/tbman/views.rs:405-437 | The event handler is the event function of the specification |
| NumberEdit.RegisterDialog.EditRegisterText | src/bin/tbman/app.rs:968-1002 | The callback updates the other editor and the button as specified |
| NumberEdit.RegisterDialog.PressKey | src/bin/tbman/app.rs:968-1002 | A key on the focused editor, with its callback, keeps the invariant |
| NumberEdit.RegisterDialog.UpdateRegister | src/bin/tbman/app.rs:1004-1046 | An enabled Update gives both register copies the number that both editors show; a disabled one changes nothing |

## Left out

- TraceLog.TraceFiles.TruncateRecs: the file is replaced at once; the temporary file and reopening the descriptors are not modelled.
- DromDecoder.Drain: is not for images in which an empty entry is reached, because the source never stops on these (`DromIterator.OutcomeIff`).
- DromCodec.DecodeEncode: covers the adapter, USB3 port mapping and DPTX ranking entries; strings, TMU, product descriptor, serial number, single data path and embedded link entries are flat byte picks or library text decoding, modelled only as far as they can panic.
- MergeLogs.HeapPop: takes the heap as a list of entries; the array layout of heapq is library code.
- MergeLogs.PushLog: a timestamp is given as a number; the rounding of float and the regular expression are not modelled.
- PathDiscovery.DiscoverPath: adapter kinds and numbers are given; decoding them from registers is a finite case table.
- PathTable.ReadPaths: the registers are given; the text format of the debugfs file and the special case of lane 1 adapters without a table are not modelled.
- NumberEdit.RegisterDialog.UpdateRegister: the two copies of a register are two numbers; finding the register behind the selected view is not modelled.
- RegisterCache.WriteChanged: a write is one entry of a map; the text format of the debugfs file is not modelled.
- XDomain.XDomainPanicsIff: is about a build that checks overflow; an unchecked one takes the data to start at 0 in the same case.
- XDomain.ParsePacket: lower-casing of names is that of ASCII; the value of a UUID is the four double words it is made from.
- Splitting the text of kernel log lines and records into fields is not modelled; headers and records are given by their fields, and regular expressions by the strings they match.
- Errors, signals, fifos, locks and timeouts of the scripts: locked functions are atomic steps, an unlocked append of one record is one step, and a timeout is an event.
- The sequence number and timestamp cursors of the error scanner, its progress tracking and its reported counters only serve the display.
- Tunnels made of several paths, DMA ring matching, margining, Type C, security levels, UUID and UTF-16 helpers, views, colours, CSV and HTML output, and the SQL and conversion scripts.
- Access to debugfs, sysfs, udev and tracefs.
