# Verified models of the executable headers

Most headers of this tree only declare things. A few contain code: the IOReporting macros, `cc_xor`,
the corecrypto context-layout macros, the libmd digest shims and the soft-linking macros. This project
models that code in Dafny and proves what it promises over whole runs, for all inputs.

`dafny verify dfyconfig.toml` checks everything.

## Modules

- `Machine`: machine integers, saturating addition, sums.
- `ReportTypes`: the 64-byte report element and its constants.
- `StateReport`, `StateTraces`, `StateSampling`: the StateReport macros as a class over an element
  array; what every reachable buffer says about its history; why reading it out is invisible.
- `HistogramReport`, `HistogramTraces`: the HistogramReport macros, the scan, the statistics.
- `SimpleReports`: SimpleReport and SimpleArrayReport.
- `Dimensions`: the UPDATERES and UPDATEPREP macros over lists of reports.
- `Regions`: memory cut into adjacent regions, with reads and writes through them.
- `ReportBytes`, `RawElements`: the element layout in bytes; loads and stores of its fields in a byte
  array, and what INIT writes to every element.
- `RawStateReport`, `RawHistogramReport`: the StateReport and HistogramReport macros, from INIT on, over
  a byte array, proved to refine the typed ones.
- `CryptoLayout`: `cc_pad_align`, digest and HMAC contexts, RSA contexts.
- `OverlapXor`: `cc_xor` with all three buffers in one memory.
- `DigestShim`: End, Data and File of `md5.h`, for any digest length.
- `SoftLink`: the lazy dlopen/dlsym state machine.
- `Units`: channel ids and units packed in 64 bits.

Each report class keeps a ghost history of the macros used on it, and its invariant says that its
fields are what the history makes of a freshly initialised buffer. The trace modules prove what any
history amounts to.

## What the code does not promise

Some properties one would expect hold only under a condition. Each condition is proved to be exact.

- A sample (UPDATEPREP) is invisible to every continuation exactly when it is not taken at time 0 while
  the clock runs: `update_ts == 0` means "not started", so a sample at 0 stops the clock.
- The histogram scan agrees with a linear histogram exactly when width times bucket count is below
  2^32; beyond that the unsigned 32-bit product wraps and values are dropped.
- A negative overflow of a sum or counter also stores INT64_MAX, so the sum of bucket 0 can depend on
  the order of its values. It is exact in every order exactly when the positive values together and the
  negative values together fit in int64. Elsewhere, and in bucket 0 without negative values, the sum is
  min(INT64_MAX, exact sum) in every order.
- SIMPLEARRAY_GETVALUE and SIMPLEARRAY_SETVALUE accept the same indices exactly when `nelements` is not
  0. The field has 16 bits, so 262144 values make it 0, and `idx > -1` is false for an unsigned index.
- `element_idx` is the position of each element of a report exactly up to 32768 elements.
- SIMPLEREPORT_UPDATERES increments without the overflow check of its siblings; the counter of a list is
  undefined exactly when a SimpleReport comes after the counter is full.
- `cc_xor` is right for all memory contents exactly when the two sources coincide or neither starts
  strictly inside r; xoring in place twice restores exactly when the buffers are disjoint.
- IOREPORT_MAKEID with signed negative characters overwrites the characters before them.

The comment on `last_intransition` calls it the time of the last in-transition; no macro writes it after
INIT (`StateTraces.ElementOfRun`), the time goes to `timestamp`. The action numbers of configure and
update overlap: `kIOReportEnable` and `kIOReportCopyChannelData` are both 1, so the UPDATERES macros also
count on an enable action.

## Model

| member | source | states |
|---|---|---|
| StateReport.Buffer.Init | include/IOKit/IOReportMacros.h:237-266 | after the fill and the element loop the buffer is a fresh report of n states with an empty history |
| StateReport.Buffer.SetStateId | include/IOKit/IOReportMacros.h:277-285 | relabels the state in place, out of bounds a no-op; keeps the history invariant |
| StateReport.Buffer.SetState | include/IOKit/IOReportMacros.h:295-309 | credits the state left, stamps and counts the one entered, out of bounds a no-op; keeps the history invariant |
| StateReport.Buffer.UpdatePrep | include/IOKit/IOReportMacros.h:320-334 | credits the current state up to now if started; yields 64 bytes per element to copy |
| StateReport.Buffer.UpdateRes | include/IOKit/IOReportMacros.h:345-356 | actions 1 and 2 add the number of states, up to 2^31 - 1; any other action adds nothing |
| StateReport.Buffer.GetTransitions | include/IOKit/IOReportMacros.h:382-385 | the state's count, or 2^63 out of bounds |
| StateReport.Buffer.GetTicks | include/IOKit/IOReportMacros.h:393-396 | the state's ticks, or 2^63 out of bounds |
| StateTraces.HeaderOfRun | include/IOKit/IOReportMacros.h:295-334 | curr_state and update_ts after any run are the last state entered and the last effective time |
| StateTraces.ElementOfRun | include/IOKit/IOReportMacros.h:237-334 | after any run every field but upticks is a closed function of the run; last_intransition is always 0 |
| StateTraces.EntriesConserved | include/IOKit/IOReportMacros.h:295-309 | all intransitions together count the in-bounds SETSTATE calls, exactly below 2^64 and modulo 2^64 always |
| StateTraces.TicksConserved | include/IOKit/IOReportMacros.h:295-334 | for every run, zero times included, all upticks are update_ts minus the times that started the clock, modulo 2^64 |
| StateTraces.TicksSinceFirstEntry | include/IOKit/IOReportMacros.h:295-334 | with nonzero times that is the time since the first entry |
| StateTraces.Residency | include/IOKit/IOReportMacros.h:295-334 | in a chronological run the ticks of a state are the number of instants at which the run says it was current, so none wraps |
| StateTraces.BufferReportsHistory | include/IOKit/IOReportMacros.h:209-334 | every field of any buffer in use, header and channel included, read off its history |
| StateTraces.ElementIdxIsPositionIff | include/IOKit/IOReportTypes.h:145-146 | after any run element_idx is the position of every state exactly up to 32768 states |
| StateSampling.LagStep | include/IOKit/IOReportMacros.h:295-334 | reports that differ only in how far the current state is credited stay so under any macro and agree after one that moves the clock |
| StateSampling.SampleStep | include/IOKit/IOReportMacros.h:320-334 | a sample on one side only keeps that relation |
| StateSampling.SampleInvisible | include/IOKit/IOReportMacros.h:320-334 | deleting a sample changes nothing later but possibly the timestamp of the sampled state, and that only once the run has left it; for times in any order |
| StateSampling.SampleLeavesNoTrace | include/IOKit/IOReportMacros.h:320-334 | if the run ends in the sampled state, deleting the sample leaves the whole report equal |
| StateSampling.SampleInvisibleIff | include/IOKit/IOReportMacros.h:320-334 | invisible to all continuations exactly when the sample is not at time 0 on a running clock |
| StateSampling.PollingInvisible | include/IOKit/IOReportMacros.h:320-334 | deleting all samples of a run changes nothing but timestamps of states that were sampled and are not current at the end |
| HistogramReport.Buffer.Init | include/IOKit/IOReportMacros.h:603-628 | a fresh histogram with the width stored through int |
| HistogramReport.FirstMatch | include/IOKit/IOReportMacros.h:642-643 | the first bucket whose 32-bit bound is not below the value, or none |
| HistogramReport.UpdateBucket | include/IOKit/IOReportMacros.h:646-661 | the branches on hits, min and max and the saturating sum compute the updated statistics |
| HistogramReport.Buffer.TallyValue | include/IOKit/IOReportMacros.h:637-665 | the scan with break updates exactly the first matching bucket; keeps the history invariant |
| HistogramReport.Buffer.UpdatePrep | include/IOKit/IOReportMacros.h:676-681 | 64 bytes per bucket to copy |
| HistogramReport.Buffer.UpdateRes | include/IOKit/IOReportMacros.h:693-702 | actions 1 and 2 add the number of buckets, up to 2^31 - 1; any other action adds nothing |
| HistogramTraces.BoundOfWidth | include/IOKit/IOReportMacros.h:610-643 | storing the width as int and multiplying as unsigned gives the product modulo 2^32 for every width |
| HistogramTraces.LinearBucketBounds | include/IOKit/IOReportMacros.h:589-595 | ceil(value/width) - 1 is the bucket whose bounds enclose the value |
| HistogramTraces.ScanIsLinear | include/IOKit/IOReportMacros.h:637-665 | without wrap-around the scan finds that bucket, 0 up to width, none beyond width * n |
| HistogramTraces.ScanIsLinearIff | include/IOKit/IOReportMacros.h:637-665 | it does so for all values exactly when width * n < 2^32 |
| HistogramTraces.BucketOfRun | include/IOKit/IOReportMacros.h:637-665 | for every width, wrap-around or not, a histogram in use tallies a value in the first bucket b with value <= width * (b + 1) modulo 2^32, and in none if there is no such b |
| HistogramTraces.TallyOfRun | include/IOKit/IOReportMacros.h:637-665 | one more tally changes that bucket only: one hit more, and the exact sum, or 2^63 - 1 if it leaves int64 on either side |
| HistogramTraces.HeaderOfRun | include/IOKit/IOReportMacros.h:614-621 | after any run a bucket still carries provider and channel id, format 3, the categories, the bucket count, its position and timestamp 0 |
| HistogramTraces.Statistics | include/IOKit/IOReportMacros.h:603-665 | after fewer than 2^64 tallies each bucket holds the count, minimum, maximum and accumulated sum of the values routed to it |
| HistogramTraces.BufferStatistics | include/IOKit/IOReportMacros.h:603-665 | the same for any buffer in use, with the fields of its channel |
| HistogramTraces.SumOfBucket | include/IOKit/IOReportMacros.h:655-660 | a bucket's sum is min(INT64_MAX, exact sum of its values) unless bucket 0 took a negative value, and the exact sum whenever no order of its values can overflow |
| HistogramTraces.SumExactIff | include/IOKit/IOReportMacros.h:655-660 | for values of any sign a bucket's sum is exact at every point of a run exactly when no exact sum so far leaves int64 |
| HistogramTraces.BufferSum | include/IOKit/IOReportMacros.h:655-660 | both for any buffer in use |
| HistogramTraces.SumExactInEveryOrderIff | include/IOKit/IOReportMacros.h:655-660 | over all orders of the tallied values a bucket's sum is exact throughout exactly when its positive values together and its negative values together fit in int64 |
| HistogramTraces.BucketBounds | include/IOKit/IOReportMacros.h:637-665 | minimum and maximum of a hit bucket lie within its bounds |
| HistogramTraces.HitsConserved | include/IOKit/IOReportMacros.h:637-665 | all hits together count the tallied values up to width * n |
| HistogramTraces.OrderIndependent | include/IOKit/IOReportMacros.h:637-665 | the histogram depends only on the multiset of values; for the sum of bucket 0 if its values are nonnegative or cannot overflow in any order |
| HistogramTraces.NegativeSumsDependOnOrder | include/IOKit/IOReportMacros.h:655-660 | three negative values whose sum depends on their order |
| HistogramTraces.ElementIdxIsPositionIff | include/IOKit/IOReportTypes.h:145-146 | after any run element_idx is the position of every bucket exactly up to 32768 buckets |
| Machine.AccumulateNonNegatives | include/IOKit/IOReportMacros.h:127-138 | step-by-step saturation of nonnegative increments is one saturation of the exact sum |
| Machine.IncrementOfRun | include/IOKit/IOReportMacros.h:127-138 | after any run one more increment is added exactly while the result fits in int64; leaving it on either side stores 2^63 - 1 |
| Machine.AccumulateExactIff | include/IOKit/IOReportMacros.h:655-660 | with mixed signs the running value is exact throughout exactly when no partial sum leaves int64 |
| Machine.ExactInEveryOrderIff | include/IOKit/IOReportMacros.h:127-138 | a counter is exact throughout in every order of its increments exactly when the positive ones together and the negative ones together fit in int64 |
| SimpleReports.SlotOfRun | include/IOKit/IOReportMacros.h:112-138 | a slot forgets what precedes its last set and accumulates the increments since |
| SimpleReports.SimpleBuffer.Init | include/IOKit/IOReportMacros.h:82-102 | one element holding the invalid value |
| SimpleReports.SimpleBuffer.SetValue | include/IOKit/IOReportMacros.h:112-118 | sets the value and nothing else |
| SimpleReports.SimpleBuffer.IncrementValue | include/IOKit/IOReportMacros.h:127-138 | adds with saturation through a temporary |
| SimpleReports.SimpleBuffer.GetValue | include/IOKit/IOReportMacros.h:201-203 | the accumulation of the increments since the last set |
| SimpleReports.SimpleBuffer.UpdatePrep | include/IOKit/IOReportMacros.h:152-156 | one element of 64 bytes to copy |
| SimpleReports.SimpleBuffer.UpdateRes | include/IOKit/IOReportMacros.h:167-173 | actions 1 and 2 add one, undefined at 2^31 - 1; any other action adds nothing |
| SimpleReports.SimpleReportsHistory | include/IOKit/IOReportMacros.h:82-138 | every field of a SimpleReport in use: channel, format 1, one element at position 0, and the value, -2^63 before the first set |
| SimpleReports.SlotsForValues | include/IOKit/IOReportMacros.h:425-453 | the element count is the least that fits, and every value has a slot exactly up to 262140 values |
| SimpleReports.AcceptsAgreeIff | include/IOKit/IOReportMacros.h:458-570 | reads and writes accept the same indices exactly when nelements is not 0 |
| SimpleReports.SlotsIndependent | include/IOKit/IOReportMacros.h:479-500 | each array slot ends as a SimpleReport that saw only its own operations |
| SimpleReports.IncrementRun | include/IOKit/IOReportMacros.h:493-500 | any interleaving of nonnegative increments leaves each slot at start plus its own sum, saturated once |
| SimpleReports.StoreIsFlat | include/IOKit/IOReportMacros.h:458-466 | storing through the /4, %4 packing is storing at the flat index |
| SimpleReports.ArrayBuffer.Init | include/IOKit/IOReportMacros.h:425-453 | all slots invalid, nelements truncated to 16 bits, headers as given |
| SimpleReports.ArrayBuffer.SetValue | include/IOKit/IOReportMacros.h:479-484 | writes the flat slot, out of range a no-op |
| SimpleReports.ArrayBuffer.IncrementValue | include/IOKit/IOReportMacros.h:493-500 | the in-place add computes the same saturating function |
| SimpleReports.AddInPlace | include/IOKit/IOReportMacros.h:496-498 | adding with the slot as its own destination is the saturating add, in that slot only |
| SimpleReports.ArrayBuffer.GetValue | include/IOKit/IOReportMacros.h:566-570 | the flat slot, or -2^63 out of range; -2^63 for every index when nelements is 0 |
| SimpleReports.ArrayBuffer.UpdatePrep | include/IOKit/IOReportMacros.h:512-518 | 64 bytes per element that nelements admits to |
| SimpleReports.ArrayBuffer.UpdateRes | include/IOKit/IOReportMacros.h:530-540 | actions 1 and 2 add the element count modulo 2^16, up to 2^31 - 1; any other action adds nothing |
| SimpleReports.ArrayReportsHistory | include/IOKit/IOReportMacros.h:425-500 | every field of every element of an array in use: channel, format 4, truncated count and position, and in each slot what its own operations made of -2^63 |
| SimpleReports.ElementIdxIsPositionIff | include/IOKit/IOReportTypes.h:145-146 | in any array in use, of any length, element_idx is the position of every element exactly up to 32768 elements |
| Dimensions.CounterOfList | include/IOKit/IOReportMacros.h:167-173 | for any list of mixed reports the counter is the saturated total, unless a SimpleReport overflows it |
| Dimensions.DimensionsMatchIff | include/IOKit/IOReportMacros.h:345-356 | bytes to copy are 64 times the growth of the counter exactly while the true total fits in an int |
| Dimensions.SaturatedTotal | include/IOKit/IOReportMacros.h:530-540 | without SimpleReports the counter is min(INT_MAX, start + total) |
| Dimensions.OtherActionsCountNothing | include/IOKit/IOReportMacros.h:693-702 | any action but 1 and 2 leaves the counter alone |
| Dimensions.CountsIff | include/IOKit/IOReportMacros.h:345-356 | for every list with an element to count and room for it, the counter moves exactly for the actions 1 and 2 |
| Dimensions.SizeOfList | include/IOKit/IOReportMacros.h:676-681 | the sizes to copy add up to 64 bytes per element |
| ReportBytes.FieldsPacked | include/IOKit/IOReportTypes.h:138-201 | the twelve fields follow one another without gap and fill 64 bytes |
| ReportBytes.FieldTable | include/IOKit/IOReportTypes.h:138-201 | offset and size of each of the twelve fields |
| ReportBytes.FieldOfStore | include/IOKit/IOReportTypes.h:195-201 | a stored field is read back and no other field changes |
| ReportBytes.FieldsTile | include/IOKit/IOReportMacros.h:209-221 | for any element count the fields tile exactly the range between header and BUFSIZE |
| ReportBytes.DecodeEncode | include/IOKit/IOReportTypes.h:181-201 | a number stored little-endian in enough bytes is read back |
| ReportBytes.EncodeDecode | include/IOKit/IOReportTypes.h:181-201 | bytes read as a number and stored again are the same bytes |
| ReportBytes.ByteOfEncode | include/IOKit/IOReportTypes.h:181-201 | little-endian: byte j of a stored number is worth 256 to the j |
| ReportBytes.Store | include/IOKit/IOReportMacros.h:295-309 | writing a field byte by byte replaces exactly its region |
| RawElements.RowsStored | include/IOKit/IOReportMacros.h:247-258 | a store to one field of one element changes that entry of the decoded elements and no other |
| RawElements.StoreField | include/IOKit/IOReportMacros.h:247-258 | the assignment does so in place; header and bytes behind the elements untouched |
| RawElements.HeaderStored | include/IOKit/IOReportMacros.h:209-213 | a store to a header field changes the header there and nothing else |
| RawElements.StoreHeader | include/IOKit/IOReportMacros.h:260-261 | the assignment does so in place; no element changes |
| RawElements.InitShared | include/IOKit/IOReportMacros.h:247-254 | the shared fields of an element end as the typed initialiser has them, its values untouched |
| RawElements.Fill | include/IOKit/IOReportMacros.h:239 | every byte is '&' |
| RawStateReport.HoldsOnlyOne | include/IOKit/IOReportMacros.h:209-221 | the bytes of a buffer determine the report they hold |
| RawStateReport.BufferTiles | include/IOKit/IOReportMacros.h:209-221 | 2 bytes of curr_state, 6 of padding, 8 of update_ts and the fields of n elements tile exactly 16 + 64 n bytes |
| RawStateReport.HoldsIff | include/IOKit/IOReportMacros.h:209-221 | a buffer holds a report exactly when each field of the header and of every element is the number at its address |
| RawStateReport.SlackIs | include/IOKit/IOReportMacros.h:209-221 | what the macros leave untouched are bytes 2 to 7 and those from 16 + 64 n on |
| RawStateReport.WordStored | include/IOKit/IOReportMacros.h:300-307 | a word of the typed element is the entry of its row in memory at the same place, so one store changes one field |
| RawStateReport.Init | include/IOKit/IOReportMacros.h:237-266 | raw bytes of any contents then hold the fresh report, stated field by field at its address, with '&' in every other byte, exactly when there are 16 + 64 n bytes; a smaller buffer is left full of '&' |
| RawStateReport.SetStateId | include/IOKit/IOReportMacros.h:277-285 | on raw bytes it does what the typed operation does |
| RawStateReport.SetState | include/IOKit/IOReportMacros.h:295-309 | on raw bytes, inside BUFSIZE, it does what the typed operation does; slack bytes untouched |
| RawStateReport.UpdatePrep | include/IOKit/IOReportMacros.h:320-334 | likewise, and the copied range is the 64 n bytes from address 16 |
| RawHistogramReport.HoldsOnlyOne | include/IOKit/IOReportMacros.h:573-579 | the bytes of a buffer determine the histogram they hold, signed words included |
| RawHistogramReport.BufferTiles | include/IOKit/IOReportMacros.h:575-587 | 4 bytes of width and the fields of n elements tile exactly 4 + 64 n bytes |
| RawHistogramReport.HoldsIff | include/IOKit/IOReportMacros.h:575-587 | a buffer holds a histogram exactly when the width and each field of every element, in two's complement if signed, is the number at its address |
| RawHistogramReport.Init | include/IOKit/IOReportMacros.h:603-628 | raw bytes of any contents then hold the fresh histogram, stated field by field at its address, with '&' behind, exactly when there are 4 + 64 n bytes; a smaller buffer is left full of '&' |
| RawHistogramReport.UpdateBucket | include/IOKit/IOReportMacros.h:646-661 | the branches and stores on signed 8-byte words do what the typed update of the statistics does |
| RawHistogramReport.TallyValue | include/IOKit/IOReportMacros.h:637-665 | on raw bytes, inside BUFSIZE, scan and update do what the typed operation does; width and slack untouched |
| Regions.TilesOrdered | include/corecrypto/ccrsa.h:38-69 | tiled regions never overlap |
| Regions.TilesCover | include/corecrypto/ccrsa.h:38-69 | every address of a tiled range lies in a region |
| Regions.NonInterference | include/corecrypto/cchmac.h:35-54 | a write through one tiled region is read back through it and through no other |
| CryptoLayout.MaskClearsLowBits | include/corecrypto/cc.h:110-111 | and-ing with the complement of 2^k - 1 clears the low k bits |
| CryptoLayout.PadAlignIsLeast | include/corecrypto/cc.h:110-111 | cc_pad_align yields the least multiple of the alignment not below its argument |
| CryptoLayout.DigestTiling | include/corecrypto/ccdigest.h:50-75 | 8 bytes of nbits, the state, the block and 4 bytes of num, in this order, tile exactly the digest context |
| CryptoLayout.HmacTiling | include/corecrypto/cchmac.h:25-54 | these, padding and outer state tile exactly cchmac_ctx_size; the outer state starts at the first aligned address behind the digest context and ends with the HMAC context, for every alignment |
| CryptoLayout.HmacNonInterference | include/corecrypto/cchmac.h:35-54 | no write through one accessor changes a read through another |
| CryptoLayout.UnitsForIsLeast | include/corecrypto/ccn.h:45-65 | ccn_nof_size is the least number of units that hold the bytes |
| CryptoLayout.RsaTiling | include/corecrypto/ccrsa.h:38-120 | for every modulus size the accessor chain tiles exactly ccrsa_full_ctx_size, the public part exactly ccrsa_pub_ctx_size |
| CryptoLayout.RsaAccessors | include/corecrypto/ccrsa.h:38-120 | which region each accessor addresses, with its size in units, in the order of the key structs |
| OverlapXor.Xor | include/corecrypto/cc.h:189-198 | the countdown loop in place; the bitwise xor of the original sources when safe |
| OverlapXor.XorDownAt | include/corecrypto/cc.h:195-197 | for every overlap each bit is set exactly when the bits the loop saw differ, new bytes above and old elsewhere |
| OverlapXor.XorDownFrame | include/corecrypto/cc.h:195-197 | nothing outside r changes |
| OverlapXor.SafeIsXor | include/corecrypto/cc.h:189-198 | each bit of r is set exactly when the original sources differ there, if the sources coincide or r is at or above, or wholly below, each |
| OverlapXor.XorIff | include/corecrypto/cc.h:196 | a byte is the xor of two others exactly when each of its eight bits is set where theirs differ |
| OverlapXor.XorCorrectIff | include/corecrypto/cc.h:189-198 | that condition is exact for bitwise correctness on all memories |
| OverlapXor.TwiceRestoresIff | include/corecrypto/cc.h:189-198 | xoring t into r twice restores every memory exactly when they do not overlap |
| DigestShim.PrintHex | include/md5.h:37-41 | fills buf with the hexadecimal text and a NUL, leaving the rest |
| DigestShim.PrintAt | include/md5.h:31-41 | characters 2i and 2i + 1 are the digits of the upper and the lower half of byte i |
| DigestShim.End | include/md5.h:27-43 | NULL for NULL, else the printed digest of what was absorbed |
| DigestShim.Data | include/md5.h:45-53 | the printed digest of the data |
| DigestShim.Absorb | include/md5.h:68-69 | the read loop absorbs everything up to the first empty read |
| DigestShim.FileDigest | include/md5.h:55-78 | NULL for NULL or a missing file, else the printed digest of the contents read, the whole file if no chunk is empty |
| DigestShim.ChunkingInvisible | include/md5.h:68-69 | nonempty chunks give their concatenation, whatever follows the first empty read |
| DigestShim.FileMatchesData | include/md5.h:45-78 | File on any split of data into nonempty chunks prints the text that Data prints for the whole |
| DigestShim.SplitsAgree | include/md5.h:55-78 | any two splits of the same bytes give the same contents |
| DigestShim.PrintDecode | include/md5.h:31-41 | the text is lower-case hexadecimal and decodes to the digest |
| DigestShim.DecodePrint | include/md5.h:31-41 | every such text is the print of what it decodes to |
| DigestShim.PrintInjective | include/md5.h:31-41 | digests that print alike are equal |
| SoftLink.Linker.LibraryHandle | include/SoftLinking/SoftLinking.h:42-55 | opens on first use and returns the remembered handle |
| SoftLink.Linker.Available | include/SoftLinking/SoftLinking.h:66-80 | true exactly when the first open and the first lookup both succeeded |
| SoftLink.Linker.Alias | include/SoftLinking/SoftLinking.h:81-85 | calls through a non-null pointer, the one first looked up |
| SoftLink.StateOfRun | include/SoftLinking/SoftLinking.h:42-80 | the statics after any run, read off the run |
| SoftLink.ForeignCalls | include/SoftLinking/SoftLinking.h:49-77 | each dylib is opened once if needed, each symbol looked up once if its dylib opened and never otherwise |
| SoftLink.LookupsHaveHandles | include/SoftLinking/SoftLinking.h:73-77 | every dlopen yields the handle kept for its dylib, and every dlsym gets the handle of the function's own dylib, never NULL, and yields the function's target |
| SoftLink.TargetStable | include/SoftLinking/SoftLinking.h:66-85 | after its first use a function's target never changes, whatever is called and answered next |
| Units.TopBytesOfId | include/IOKit/IOReportTypes.h:165-169 | for signed and unsigned characters the first two bytes of an id are the characters, or 0xff where a later character is negative |
| Units.UpperBytesOfId | include/IOKit/IOReportTypes.h:165-169 | likewise the third and fourth |
| Units.LowerBytesOfId | include/IOKit/IOReportTypes.h:165-169 | likewise the fifth and sixth |
| Units.LastBytesOfId | include/IOKit/IOReportTypes.h:165-169 | likewise the last two |
| Units.IdSpellsNameIff | include/IOKit/IOReportTypes.h:165-169 | an id spells its eight characters back, with signed characters exactly when no negative one overwrites |
| Units.UnitLosslessIff | include/IOKit/IOReportTypes.h:216-221 | quantity and scale come back exactly when the scale fits in 56 bits |
| Units.MasksPartition | include/IOKit/IOReportTypes.h:255-264 | what the five masks select, given as numbers, shares no bit and makes up exactly the 56 bits of the scale; the quantity is the top byte |
| Units.BiasRoundTrip | include/IOKit/IOReportTypes.h:257-258 | an encoded exponent is the exponent plus 127, and decodes to it |
| Units.ScaleLossless | include/IOKit/IOReportTypes.h:255-264 | quantity, constant, reciprocal flag, cardinal and both exponents from -126 to 128, bias removed, come back through their masks |

## Left out

- IOREPORT_ABORT: a panic or an empty macro; the raw INITs model the undersized buffer it leaves behind, the typed constructors take an adequate one.
- Reports with zero elements: every accessor reads elem[0], so at least one element is required.
- The byte level of the SimpleReport and SimpleArrayReport macros: the same stores into elements without a header; the layout results hold for all kinds.
- The GETCHID and GETCHTYPE macros: plain field reads.
- Concurrency: the headers leave serialising access to the caller, so all runs are sequential.
- The other digest headers: the same two loops with another length, which is a parameter here.
- Hash functions, fopen, fread, dlopen and dlsym: parameters of the model; a digest is any function with results of one length, and a soft-link call carries what the system would answer.
- A digest's output reuse of its context after Final: the context is the bytes absorbed so far and nothing else.
- corecrypto functions without bodies (ccn, ccder, ccmode, ccrng and others): only declared in this tree.
- ccrsa_ctx_private_zp: only declared; zp is placed right behind d, as the layout comment in ccrsa.h has it.
- SystemConfiguration and the remaining headers: declarations, constants and layouts without behaviour.
