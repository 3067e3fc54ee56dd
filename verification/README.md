# Verified models of the CMUcam3 software

This project models the parts of the CMUcam3 sources that carry the most logic, and
proves what they are for:

- the JPEG compressor of `lib/jpeg-6b`, from scan lines to coded bytes: smoothing, the
  row controllers with their ring of context rows, the coefficient controllers,
  sequential and progressive Huffman coding with optimal tables, scan scripts, the
  passes, and suspension of the destination;
- the FAT16 file system of `hal/lpc2106-cmucam3/rdcf2.c`: the sector cache, cluster
  chains, open files, names and directories;
- the forward-only pixel reader of `hal/lpc2106-cmucam3/cc3.c`;
- the servo scheduler of `hal/lpc2106-cmucam3/servo.c`.

`dafny verify dfyconfig.toml` checks everything.

## How it is built

Code that changes things in place is modelled by methods on classes and arrays, each
proved against a specification function; the theorems are lemmas about those functions
and invariants of the classes. Constants and small helpers that the code and its
specification share are pinned by lemmas that state them in numbers. The decoders of ITU-T T.81, sections F.2.2 and G.2, are
written as specification functions: the repository's compressor has to be right with
respect to them.

| files | what they hold |
|---|---|
| Arith, Bits | powers, sums, division, bit strings |
| HuffmanSpec, HuffmanForest, HuffmanDepth, CodeLengths, OptimalTable | Huffman's procedure, its optimality, how long codes get, length limiting, `jpeg_gen_optimal_table` |
| DerivedTable, GeneratedTables, TableSets | canonical codes, DECODE, generated tables are acceptable, each made just once |
| Stuffing, BitWriter, ZigzagOrder, SeqTokens, SeqEncoder, SeqScan, HuffEntropy, Gather, SeqCounts, SeqOptimized | sequential coding and its decoder, suspension, statistics, coding with optimal tables |
| ProgTokens, ProgFirst, ProgRefine, ProgScan, ProgEncoder, ProgPass, ProgRanges, ProgCounts, ProgOptimized, ProgImage, WholeImage | progressive coding and its decoder, coding with optimal tables, whole images |
| ScanScript, SimpleScript, Passes | scan scripts and the pass state machine |
| CoefGeometry, CoefPlaces, CoefControl, CoefLayout | block geometry, the coefficient controllers, and the image that their MCUs make up |
| PrepRows, PrepControl, MainControl, Smoothing | row controllers and smoothing |
| FatCache, FatChains, FatAlloc, FatData, FatFile, FatName, FatEntries, FatPlaces, FatDirectory, FatLife | the file system, files from creation to reading |
| PixelFrame, PixelReader | the pixel reader |
| ServoTimer | the servo scheduler |

## Where the code does not do what one would expect

- After a read that reaches the end of a file at the end of a cluster, the cursor stays
  in the last cluster instead of behind it, so a write needs a seek first:
  `FatFile.File.Read` says exactly when, `FatFile.ReadToTheEnd` shows a file of one
  cluster.
- With all channels and a step above one, the pixel reader returns the right pixel of a
  pair, where a single green channel returns the left one's green:
  `PixelFrame.SubsampledGreen` says when it matters, `PixelFrame.UnlikeGreens` shows a
  pair.
- The reader's row limit is computed before it moves down to the region, so a first read
  may run past the bottom of the region: `PixelReader.Camera.ReadRows` and
  `PixelReader.Inside` say exactly when, `PixelReader.BelowRegion` shows such a read. For
  a reader that stands below the region the unsigned limit wraps:
  `PixelReader.WrappedLimit`.
- For the same reason reading a rows and then b rows is not always reading a + b rows:
  `PixelReader.CountInTwo` says exactly when, `PixelReader.CountsDiffer` shows a case.
- If the region is moved down after rows were read, the seek to its top counts from the
  FIFO's row instead of the first: `PixelReader.Camera.SeekTop` says exactly when,
  `PixelReader.MovedRegion` shows a case.
- A horizontal step of 255 wraps to zero when it is made even, and a left edge of 32767
  wraps to 32768: `PixelReader.StepWraps`, `PixelReader.Camera.SetSubsample`,
  `PixelReader.EdgeWraps` and `PixelReader.Camera.SetRoi` say that nothing else fails.
- A servo interrupt within a period that is served after the period is over begins the
  next period without lowering a line: `ServoTimer.Servos.Interrupt` says when,
  `ServoTimer.LateWakeUp` shows a servo that loses its pulse.
- A file that is empty when it is closed after it was written loses its directory entry:
  `FatDirectory.Directory.Close`. Creating or truncating counts as writing, even for
  reading only: `FatLife.OpenFile`.
- `rdcf_delete` looks for a volume label in the directory that the control block was left
  at, not in the root: `FatDirectory.Directory.DeleteLabel` works on any directory.
- `flush_buffer` would mirror one sector too many behind the first FAT; that sector is
  never in the buffer, as `FatCache.Volume.FlushBuffer` shows.

## Model

| member | source | states |
|---|---|---|
| HuffmanSpec.HuffmanIsOptimal | lib/jpeg-6b/jchuff.c:730-776 | Merging the two least counts until one is left never spends more bits than any code lengths that satisfy the Kraft inequality, for every table of counts. |
| HuffmanForest.JoinInv | lib/jpeg-6b/jchuff.c:757-775 | One merge keeps the `others` chains disjoint and acyclic, the code sizes a complete tree over each root, and the pseudo-symbol among the deepest. |
| HuffmanForest.HuffmanSizesOptimal | lib/jpeg-6b/jchuff.c:715-776 | The code sizes form a full tree (Kraft sum exactly one) over exactly the counted symbols, symbol 256 has a longest code, and no prefix code costs less. |
| HuffmanForest.CountedHaveCodes | lib/jpeg-6b/jchuff.c:779-787 | Once a real symbol is counted, a symbol has a code if and only if its count is not zero. |
| OptimalTable.SmallestCount | lib/jpeg-6b/jchuff.c:731-751 | The scan selects the least nonzero count, the larger symbol number on ties, or -1 if there is none. |
| OptimalTable.BumpBranch | lib/jpeg-6b/jchuff.c:762-775 | Walking an `others` chain terminates and adds one bit to exactly the symbols of that branch. |
| OptimalTable.AssignCodeSizes | lib/jpeg-6b/jchuff.c:730-776 | The in-place merging loop leaves in `codesize` the sizes that the optimality theorem is about. |
| CodeLengths.LongestPaired | lib/jpeg-6b/jchuff.c:801-808 | The count of the longest length is always even and at least two, so removing two never goes below zero. |
| CodeLengths.DonorExists | lib/jpeg-6b/jchuff.c:803-805 | The search for a shorter nonzero count always finds one: it never leaves the array. |
| CodeLengths.LimitCorrect | lib/jpeg-6b/jchuff.c:801-812 | Limiting terminates with no length over 16, keeps the number of codes and the Kraft sum one, and changes nothing when nothing is too long. |
| OptimalTable.LimitLengths | lib/jpeg-6b/jchuff.c:801-812 | The byte arithmetic in place computes that limiting without ever wrapping. |
| CodeLengths.ListingOrdered | lib/jpeg-6b/jchuff.c:826-834 | The symbol list names every coded symbol once, by code length and then by number. |
| OptimalTable.GenOptimalTable | lib/jpeg-6b/jchuff.c:704-838 | For counts with a real symbol in use, at most 254 in use and a sum within 10^9: either the length-overflow error and an unchanged table, exactly when some Huffman size exceeds 32, or the table by length and list that the following rows describe. |
| OptimalTable.CountableInNumbers | lib/jpeg-6b/jchuff.c:704-751 | Which counts the generator takes: 257 of them, at most 10^9 in all and 255 in use with the pseudo-symbol. |
| GeneratedTables.TableShape | lib/jpeg-6b/jchuff.c:814-820 | A generated table has lengths of at most 16, one code for each counted symbol, and Kraft sum 1 - 2^-L for its longest length L: one slot stays free there. |
| DerivedTable.MakeDerivedTable | lib/jpeg-6b/jchuff.c:178-264 | Accepts exactly the tables with at most 256 symbols, room below the all-ones code at every length, and no symbol twice or out of range; then the codes are the canonical ones. |
| DerivedTable.AcceptableInNumbers | lib/jpeg-6b/jchuff.c:199-260 | The tables accepted: at most 256 symbols, each once, none above 15 for DC, and the sixteen-bit code of all ones left free. |
| DerivedTable.CodeFits | lib/jpeg-6b/jchuff.c:221-239 | Every canonical code fits its length and is not all ones. |
| DerivedTable.PrefixFree | lib/jpeg-6b/jchuff.c:221-239 | No canonical code is a prefix of another. |
| DerivedTable.DecodeSymbol | lib/jpeg-6b/jchuff.c:241-263 | DECODE of section F.2.2.3 of T.81, reading bit by bit, returns the symbol of every code and leaves what follows it. |
| GeneratedTables.GeneratedAcceptable | lib/jpeg-6b/jchuff.c:704-838 | A generated table is never rejected when it is derived. |
| GeneratedTables.CountedAreCoded | lib/jpeg-6b/jchuff.c:704-838 | Exactly the counted symbols have a code in the derived table, however the lengths were limited. |
| GeneratedTables.GeneratedOptimal | lib/jpeg-6b/jchuff.c:704-838 | When no size exceeds 16, the derived code sizes are Huffman's, and the table with its reserved code is as short as any prefix code. |
| HuffmanDepth.LongCodesNeedCounts | lib/jpeg-6b/jchuff.c:776-787 | A code of length d takes at least Fib(d + 2) counted occurrences, for every table of counts. |
| HuffmanDepth.NoOverflow | lib/jpeg-6b/jchuff.c:782-787 | Below 9227465 occurrences the length-overflow error does not happen. |
| HuffmanDepth.SmallCountsOptimal | lib/jpeg-6b/jchuff.c:704-838 | Below 4181 occurrences no length is limited, so the derived table is as short as any prefix code. |
| TableSets.TableSet.MakeOnce | lib/jpeg-6b/jchuff.c:853-877 | A table is generated from the gathered counts the first time and left alone afterwards, although generating clobbers the counts; it fails exactly if a code would be too long. |
| BitWriter.MergeHolds | lib/jpeg-6b/jchuff.c:302-322 | Merging a code into the 32-bit accumulator keeps in it the pending bits and then the code's. |
| BitWriter.TopByteHolds | lib/jpeg-6b/jchuff.c:323-331 | The byte taken out is the first eight pending bits. |
| BitWriter.ShiftHolds | lib/jpeg-6b/jchuff.c:323-331 | Shifting the accumulator within 32 bits keeps the rest of the pending bits. |
| Stuffing.UnstuffStuff | lib/jpeg-6b/jchuff.c:318-333 | Reading stuffed bytes back gives the whole bytes that were sent, and stops at the marker behind them. |
| Stuffing.PaddedInterval | lib/jpeg-6b/jchuff.c:338-347 | A flushed interval reads back as its bits and some ones, whatever marker follows. |
| SeqEncoder.Work.EmitBits | lib/jpeg-6b/jchuff.c:300-336 | At most seven bits stay pending; the bytes out are the stuffed whole bytes, the missing-code error is raised for size zero, or the destination suspended. |
| SeqEncoder.Work.EncodeOneBlock | lib/jpeg-6b/jchuff.c:352-443 | One block emits exactly the tokens of sections F.1.2.1 and F.1.2.2 of T.81, or ends at the first out-of-range coefficient, missing code or full buffer; a block that is coded has a DC difference within 2047 and other coefficients within 1023, and one that is out of range has not. |
| SeqEncoder.Work.EmitRestart | lib/jpeg-6b/jchuff.c:450-468 | A restart completes the byte with ones, writes the marker and clears the predictions. |
| SeqTokens.ExtendValue | lib/jpeg-6b/jchuff.c:370-397 | EXTEND of section F.2.2.1 undoes the value bits of every coefficient. |
| SeqTokens.BlockInRange | lib/jpeg-6b/jchuff.c:367-425 | A block is out of range if and only if its DC difference is beyond 2047 or another coefficient beyond 1023 in magnitude. |
| SeqTokens.NextSymbol | lib/jpeg-6b/jchuff.c:395-433 | The symbol 0xF0 for sixteen zeros, then 16 r + n for r zeros and a coefficient of n bits, and these bits. |
| SeqTokens.EndSymbol | lib/jpeg-6b/jchuff.c:435-440 | Zeros up to the end of a block are the symbol 0x00. |
| SeqTokens.DCSymbol | lib/jpeg-6b/jchuff.c:367-393 | A DC difference is its number of bits as a symbol, and these bits if there are any. |
| SeqTokens.DCRoundTrip | lib/jpeg-6b/jchuff.c:367-393 | The DC difference decodes. |
| SeqTokens.ACRoundTrip | lib/jpeg-6b/jchuff.c:395-441 | From any position and run length on, the AC decoder rebuilds the rest of the block: ZRL symbols, coefficients and end of block. |
| SeqTokens.BlockRoundTrip | lib/jpeg-6b/jchuff.c:352-443 | Decoding a coded block by section F.2.2 of T.81 gives the block, with any valid tables and whatever bits follow. |
| SeqTokens.DerivedTableOk | lib/jpeg-6b/jchuff.c:178-264 | The reader of a table header undoes every code of the table that the encoder derives from it. |
| HuffEntropy.Encoder.EncodeMcu | lib/jpeg-6b/jchuff.c:475-525 | All of the MCU or nothing: on suspension or an error neither output nor state changes; otherwise the bytes and the state of an uninterrupted run. |
| HuffEntropy.EncodeRetrying | lib/jpeg-6b/jchuff.c:475-525 | An MCU offered again after each suspension goes out with the first room that is greater than its bytes, and stays suspended exactly if there is none. |
| HuffEntropy.EncodeScan | lib/jpeg-6b/jchuff.c:475-552 | Any pattern of suspensions gives the bytes of an uninterrupted scan, and they decode to the MCUs; it ends suspended only if the destination suspends and no more room is made, or the final flush has too little; a destination that does not suspend gets the scan or its error. |
| HuffEntropy.ScanInTwo | lib/jpeg-6b/jchuff.c:475-525 | From the state that any first MCUs leave, the coder goes on as in one run over all of them. |
| SeqScan.SendBlocksBits | lib/jpeg-6b/jchuff.c:490-512 | The coder ends with an error exactly when some block cannot be coded; otherwise it emits the bits of the blocks one after another. |
| SeqScan.ScanSplits | lib/jpeg-6b/jchuff.c:450-525 | The bytes of a scan are its restart intervals, each padded and stuffed, with one marker between two. |
| SeqScan.ScanRoundTrip | lib/jpeg-6b/jchuff.c:475-552 | Unstuffing and decoding the bytes of a scan returns its MCUs, for any restart interval, any MCU layout and any tables that code the symbols used. |
| SeqScan.ScanMarkers | lib/jpeg-6b/jchuff.c:450-468 | Every 0xFF of the coded data is followed by zero or starts a restart marker; there is one marker between intervals, numbered modulo eight, and no other. |
| SeqScan.ScanBytesInNumbers | lib/jpeg-6b/jchuff.c:318-468 | A finished scan is bytes, of which every 0xFF is followed by 0 or by one of 0xD0 to 0xD7, and these are 0xD0 + n modulo 8 in order, one between two intervals. |
| Stuffing.MarkersBetween | lib/jpeg-6b/jchuff.c:477-512 | There are as many markers as full intervals before the last MCU. |
| HuffEntropy.CountBlock | lib/jpeg-6b/jchuff.c:571-636 | Counting a block adds the number of times each symbol occurs in it, and fails exactly if its DC difference is beyond 2047 or another coefficient beyond 1023 in magnitude. |
| Gather.Gatherer.EncodeMcuGather | lib/jpeg-6b/jchuff.c:644-673 | Counting an MCU, restarts included, adds for each table the symbols that coding it emits with that table. |
| Gather.GatherAgrees | lib/jpeg-6b/jchuff.c:352-673 | If every gathered symbol is coded and every coefficient in range, the output pass meets no error. |
| Gather.ScanCountable | lib/jpeg-6b/jchuff.c:571-673 | Counts of a scan meet the table generator's conditions by themselves: never more than 254 symbols in use. |
| Gather.SmallScanInRange | lib/jpeg-6b/jchuff.c:571-636 | A scan with all coefficients within 1023 in magnitude is in range: the differences of its DC values fit too. |
| Gather.LargeScanOutOfRange | lib/jpeg-6b/jchuff.c:616-626 | One AC coefficient beyond 1023 puts a whole scan out of range. |
| SeqOptimized.GatherScan | lib/jpeg-6b/jchuff.c:644-673 | A statistics pass over a scan leaves, for every table, how often the scan uses each symbol, and fails exactly on a coefficient out of range. |
| SeqCounts.UsedCountable | lib/jpeg-6b/jchuff.c:571-673 | The counts of every table of a scan meet the table generator's conditions: some symbol is in use, at most 254 are, and no more occurrences than coefficients. |
| SeqOptimized.FinishPassGather | lib/jpeg-6b/jchuff.c:845-880 | The tables of all components are generated, each just once; it fails exactly if some component's table needs a code that is too long. |
| SeqOptimized.DeriveTables | lib/jpeg-6b/jchuff.c:123-156 | The encoder's tables are those of the headers, for every component. |
| SeqOptimized.OptimizedScanRoundTrip | lib/jpeg-6b/jchuff.c:352-880 | Coded with tables generated from its own counts, a scan in range is encoded without an error and decodes to its MCUs with nothing but the headers of those tables. |
| SeqOptimized.SmallScanFits | lib/jpeg-6b/jchuff.c:782-787 | A scan of fewer than nine million coefficients never meets the length-overflow error. |
| SeqOptimized.OptimizeScan | lib/jpeg-6b/jchuff.c:106-880 | Statistics pass, tables and output pass together: it fails exactly on a coefficient out of range or a code too long; otherwise the bytes decode to the MCUs with the headers it leaves, unless a destination that suspends gets no more room. |
| ZigzagOrder.ZigzagRoundTrip | lib/jpeg-6b/jchuff.c:395-398 | The zigzag order is a permutation of the 64 positions. |
| ZigzagOrder.WalksDiagonals | lib/jpeg-6b/jutils.c:40-68 | The table of the natural order is the walk along the diagonals from the first coefficient to the last. |
| ProgTokens.AbsorbKeeps | lib/jpeg-6b/jcphuff.c:545-555 | Between blocks EOBRUN is below 0x7FFF, the correction bits leave room for another block and are none without a run; within one, BE + BR stays within 1000 and EOBRUN within 0x7FFF. |
| ProgTokens.ForcedOut | lib/jpeg-6b/jcphuff.c:545-555 | A run is forced out exactly if it comes to 32767 blocks or more than 937 correction bits wait. |
| ProgTokens.EobReads | lib/jpeg-6b/jcphuff.c:315-330 | The end-of-band symbol and its extra bits read back as the run length. |
| ProgTokens.AbsorbFollows | lib/jpeg-6b/jcphuff.c:315-339 | Adding a block to a pending run keeps everything emitted so far decodable, whether the run is joined, flushed before the block's own symbols or forced out after it. |
| ProgTokens.IntervalDecodes | lib/jpeg-6b/jcphuff.c:315-339 | A restart interval of blocks, with runs spanning blocks, decodes block by block. |
| ProgFirst.FirstRoundTrip | lib/jpeg-6b/jcphuff.c:492-556 | From any position of the band on, decoding the first scan's symbols sets each coefficient to its value shifted by Al toward zero. |
| ProgFirst.FirstReads | lib/jpeg-6b/jcphuff.c:463-561 | A block of a first AC scan decodes against a history of zeros. |
| ProgRefine.RefineRoundTrip | lib/jpeg-6b/jcphuff.c:660-722 | From any state of the coding loop, with zeros counted and correction bits waiting, decoding by section G.2 of T.81 gives the band exactly down to bit Al. |
| ProgRefine.RefineReads | lib/jpeg-6b/jcphuff.c:617-738 | A block of a refinement scan decodes against its previous approximation to exactly its next one. |
| ProgEncoder.Phuff.PrePass | lib/jpeg-6b/jcphuff.c:642-658 | The pre-pass yields the shifted magnitudes and the last position that becomes nonzero. |
| ProgEncoder.Phuff.EmitBuffered | lib/jpeg-6b/jcphuff.c:296-308 | The buffered correction bits go out in order. |
| ProgEncoder.Phuff.EmitEobrun | lib/jpeg-6b/jcphuff.c:315-339 | The pending run and its correction bits go out, and both are empty afterwards. |
| ProgEncoder.Phuff.EncodeAcFirst | lib/jpeg-6b/jcphuff.c:463-561 | The loop over the band emits and leaves pending exactly what the token specification says, or stops with the first error. |
| ProgEncoder.Phuff.EncodeAcRefine | lib/jpeg-6b/jcphuff.c:617-738 | The two passes over the band, with the shared correction-bit buffer, emit and leave pending exactly what the token specification says. |
| ProgEncoder.Phuff.EncodeDcFirst | lib/jpeg-6b/jcphuff.c:376-455 | The DC values of an MCU, shifted arithmetically by Al, are coded as differences to the predictions. |
| ProgEncoder.Phuff.EncodeDcRefine | lib/jpeg-6b/jcphuff.c:570-610 | One bit for each block, that of position Al. |
| ProgEncoder.Phuff.EmitRestart | lib/jpeg-6b/jcphuff.c:346-368 | A restart flushes the run, pads, writes the marker, and resets predictions and run. |
| ProgEncoder.Phuff.EncodeMcu | lib/jpeg-6b/jcphuff.c:376-738 | One MCU of any kind of scan continues the interval, or begins the next behind its marker; marker numbers go modulo eight. |
| ProgEncoder.Phuff.FinishPass | lib/jpeg-6b/jcphuff.c:745-777 | The pass ends with the run flushed and the last byte padded, or with the counts complete. |
| ProgPass.EncodePass | lib/jpeg-6b/jcphuff.c:376-806 | A whole output pass writes exactly the bytes of the scan; a statistics pass counts exactly the symbols that the output pass emits. |
| ProgScan.ScanRoundTrip | lib/jpeg-6b/jcphuff.c:376-759 | For all four kinds of scan, decoding the bytes against the blocks' histories gives exactly what the scan conveys, for any restart interval. |
| ProgScan.ScanBytesInNumbers | lib/jpeg-6b/jcphuff.c:245-368 | A finished scan is bytes, of which every 0xFF is followed by 0 or by one of 0xD0 to 0xD7, and these are 0xD0 + n modulo 8 in order. |
| ProgRanges.AcScanInRange | lib/jpeg-6b/jcphuff.c:492-535 | A refinement is always in range, and a first AC scan if and only if every coefficient of its band is below 1024 times 2^Al in magnitude. |
| ProgRanges.DCStepInRange | lib/jpeg-6b/jcphuff.c:395-432 | A first DC scan is in range if and only if each shifted value differs by at most 2047 from the one of its component before it. |
| ProgRanges.SmallDcScanInRange | lib/jpeg-6b/jcphuff.c:376-610 | DC values within 1023 in magnitude are in range in every DC scan. |
| ProgScan.ShiftedStep | lib/jpeg-6b/jcphuff.c:596-600 | A refinement bit completes an arithmetic shift by one less. |
| ProgCounts.WholeSymbols | lib/jpeg-6b/jcphuff.c:315-738 | A scan uses at most one symbol for each of its coefficients, end-of-band runs included. |
| ProgCounts.NeededCountable | lib/jpeg-6b/jcphuff.c:766-806 | The counts of every table a scan needs meet the table generator's conditions: some symbol is in use, at most 254 are, and no more occurrences than coefficients. |
| ProgOptimized.FinishPassGather | lib/jpeg-6b/jcphuff.c:766-806 | The tables of all components are generated, each just once, and none for a DC refinement; it fails exactly if some table needs a code that is too long. |
| ProgOptimized.OptimizedProgressive | lib/jpeg-6b/jcphuff.c:376-806 | Coded with tables generated from its own counts, a progressive scan in range never meets a missing code, and with the headers of those tables alone it decodes, against any right histories, to what it conveys. |
| ProgOptimized.OptimizePass | lib/jpeg-6b/jcphuff.c:105-806 | Statistics pass, tables and output pass together: it fails exactly on a coefficient out of range or a code too long, or if the destination suspends; otherwise its bytes decode with the headers it leaves. |
| ScanScript.CheckBand | lib/jpeg-6b/jcmaster.c:210-226 | The test on the table of last bit positions passes exactly if every coefficient of the band continues its chain, and the table is kept up to date. |
| ScanScript.EntryInNumbers | lib/jpeg-6b/jcmaster.c:145-209 | An entry is in order by itself if and only if it has one to four ascending components, a band within 0 to 63, bit positions from 0 to 10, and DC alone or AC of one component. |
| ScanScript.SequentialInNumbers | lib/jpeg-6b/jcmaster.c:147-164 | A script is sequential exactly if its first scan has all 64 coefficients. |
| ScanScript.CheckedMeaning | lib/jpeg-6b/jcmaster.c:168-240 | A script passes scan by scan if and only if every coefficient is sent first with Ah = 0 and then refined by exactly one bit each time, AC only after DC. |
| ScanScript.ValidateScript | lib/jpeg-6b/jcmaster.c:129-261 | Accepts exactly those scripts, with DC of every component sent; for sequential scripts, exactly those that send every component once. |
| SimpleScript.SimpleProgression | lib/jpeg-6b/jcparam.c:536-608 | The scans counted in advance are the scans filled in, and they are the recommended script. |
| SimpleScript.FillScans | lib/jpeg-6b/jcparam.c:489-506 | One scan for each component, in order. |
| SimpleScript.FillDcScans | lib/jpeg-6b/jcparam.c:508-528 | One interleaved DC scan if the components fit one, else one for each. |
| SimpleScript.GeneralChain | lib/jpeg-6b/jcparam.c:590-605 | The steps that each coefficient goes through in the all-purpose script. |
| SimpleScript.YCbCrChain | lib/jpeg-6b/jcparam.c:566-589 | The steps that each coefficient goes through in the YCbCr script. |
| SimpleScript.SimpleAccepted | lib/jpeg-6b/jcparam.c:536-608 | For every number of components the recommended script is accepted and ends at bit zero of all 64 coefficients of every component. |
| ProgImage.ExpectedHistory | lib/jpeg-6b/jcmaster.c:210-226 | In an accepted script each scan's coefficients have just the history that its kind of coder expects. |
| ProgImage.KnownStep | lib/jpeg-6b/jcphuff.c:376-738 | A scan turns what a decoder knew of a block before it into what it knows after it. |
| ProgImage.ScanOfScript | lib/jpeg-6b/jcphuff.c:376-759 | Every scan of an accepted script decodes from what the scans before it made known, whatever its tables and MCU layout. |
| ProgImage.KnownElsewhere | lib/jpeg-6b/jcmaster.c:210-226 | A scan leaves what is known of other components as it is. |
| WholeImage.ScanAlike | lib/jpeg-6b/jcphuff.c:376-610 | Padding blocks do not matter: what is held of them does not change how the other blocks of a scan are read. |
| WholeImage.ApplyKnown | lib/jpeg-6b/jcphuff.c:376-759 | One scan of an accepted script, decoded from what the decoder holds of its blocks, takes every block of the image to what is known after the scan. |
| WholeImage.ImageKnown | lib/jpeg-6b/jcmaster.c:185-254 | The bytes of all scans of any accepted script, decoded in order from a blank image, leave every block of every component at exactly the bits that the script sent. |
| WholeImage.SimpleScriptConveys | lib/jpeg-6b/jcparam.c:536-608 | Decoding the bytes of all scans of the recommended script gives back every block of the image. |
| CoefLayout.LayoutSends | lib/jpeg-6b/jccoefct.c:159-208 | The MCUs that the controllers send are a layout of the padded image: every position is the block that belongs there, dummy blocks included. |
| CoefLayout.LayoutOnce | lib/jpeg-6b/jcmaster.c:313-391 | That layout holds every block of the image once, and padding only in scans of several components. |
| CoefLayout.ScriptConveys | lib/jpeg-6b/jcmaster.c:185-254 | For any image, sampling factors and accepted script: the scans, coded from the MCUs that the controllers send and decoded in order from a blank image, leave every block at exactly the bits that the script sent. |
| CoefLayout.SimpleScriptConveys | lib/jpeg-6b/jcparam.c:536-608 | With the recommended script every block of the image comes back from the bytes. |
| Passes.Master.PrepareForPass | lib/jpeg-6b/jcmaster.c:400-475 | Setting up a pass keeps pass number, scan number and kind of pass consistent, also where the statistics pass of a DC refinement scan is skipped. |
| Passes.Master.FinishPass | lib/jpeg-6b/jcmaster.c:502-535 | Finishing a pass advances to the next one. |
| Passes.Master.FinishCompress | lib/jpeg-6b/jcapimin.c:146-181 | The loop over the remaining passes terminates, and the events of the whole compression are those of the specification. |
| Passes.Compress | lib/jpeg-6b/jcmaster.c:400-535 | From start to end, with or without optimization, transcoding or not: statistics, headers and scans in the specified order. |
| Passes.EachScanOnce | lib/jpeg-6b/jcmaster.c:502-535 | Every scan is output once, in script order. |
| Passes.EventsInOrder | lib/jpeg-6b/jcmaster.c:436-470 | The frame header is written once, before the first scan header; each scan's header comes just before its data; statistics come before the scan they are for. |
| Passes.StatisticsOf | lib/jpeg-6b/jcmaster.c:407-455 | A scan has statistics if and only if coding is optimized and it is no DC refinement, or it is the first one of a compression. |
| CoefGeometry.NestedCeiling | lib/jpeg-6b/jcmaster.c:93-117 | Ceilings of ceilings agree: blocks grouped into MCUs fill exactly the MCUs. |
| CoefGeometry.Geometry | lib/jpeg-6b/jcmaster.c:93-117 | Block counts, MCU counts and last-column widths of every component fit together, for every image size and legal sampling factors. |
| CoefGeometry.BlocksCover | lib/jpeg-6b/jcmaster.c:76-117 | Blocks are eight samples wide and high, MCUs as many as the greatest factors say; they cover the image, and one row or column less would not. |
| CoefGeometry.FrameInNumbers | lib/jpeg-6b/jcmaster.c:52-85 | Which frames are legal: not empty, with sampling factors from one to four. |
| CoefGeometry.DummyBlocks | lib/jpeg-6b/jccoefct.c:175-197 | A block outside of its component has 63 zeros and the DC value of the last real block of its row, or below the component of its MCU's last block in the last row. |
| CoefPlaces.PlaceIsSent | lib/jpeg-6b/jccoefct.c:159-208 | Every place of a scan is one position of the MCU sequence, the block sent there is the one of its row and column, and no other place is at that position. |
| CoefPlaces.DummySent | lib/jpeg-6b/jccoefct.c:175-197 | So every dummy block of the MCU sequence that is sent. |
| CoefPlaces.EachBlockSentOnce | lib/jpeg-6b/jccoefct.c:159-208 | Every block of the image is at one position of the MCU sequence that is sent, and at no other. |
| CoefGeometry.SingleIsReal | lib/jpeg-6b/jcmaster.c:313-339 | A scan of one component has no dummy blocks. |
| CoefControl.FillIMcuRow | lib/jpeg-6b/jccoefct.c:244-321 | Buffering an iMCU row stores the real blocks and the dummy blocks at the right and at the bottom. |
| CoefControl.BufferedBlock | lib/jpeg-6b/jccoefct.c:357-378 | What the output pass takes from the padded buffer is what the scan sends there. |
| CoefControl.BuildMcu | lib/jpeg-6b/jctrans.c:299-336 | All three ways to build an MCU, from the DCT, from the padded buffer, or with dummy blocks made on the fly, give the same MCU, whose dummy blocks are those of `CoefPlaces.DummySent`. |
| CoefControl.Controller.StartIMcuRow | lib/jpeg-6b/jccoefct.c:71-92 | How many MCU rows an iMCU row has, the last one included. |
| CoefControl.Controller.CompressData | lib/jpeg-6b/jccoefct.c:142-218 | A call either finishes an iMCU row or stops before the MCU that the entropy coder refused; what was sent before is never taken back or repeated. The Huffman coder refuses only for want of room or for an MCU that cannot be coded, and has written exactly what was sent. |
| CoefControl.RunPass | lib/jpeg-6b/jccoefct.c:340-395 | Whatever the kind of controller and however often it is suspended, a finished pass has sent exactly the MCUs of the scan, in order; with a coder that has no reason to refuse, as many calls as iMCU rows finish it. |
| PrepControl.CreateContextBuffer | lib/jpeg-6b/jcprepct.c:266-305 | The five groups of pointers wrap around the three groups of rows. |
| PrepControl.Prep.ExpandBottomEdge | lib/jpeg-6b/jcprepct.c:105-115 | The row before the given one, through the pointers even at the other end of the buffer, is copied downwards, and no other row changes. |
| PrepRows.AppendStored | lib/jpeg-6b/jcprepct.c:205-213 | Rows appended at the buffer position keep the group above, the group and the rows below in place. |
| PrepRows.PadTopStored | lib/jpeg-6b/jcprepct.c:214-224 | The rows above the image repeat its top row. |
| PrepRows.LastRowShown | lib/jpeg-6b/jcprepct.c:231-239 | The row that is copied below the image is its last row, also when the position has just wrapped around. |
| PrepRows.TurnStored | lib/jpeg-6b/jcprepct.c:241-256 | Turning the ring by one group keeps the rows that the next group needs. |
| PrepControl.Prep.PreProcessContext | lib/jpeg-6b/jcprepct.c:194-259 | Whatever the chunks of input, row group k is made from the true groups k - 1, k and k + 1, the edge rows repeated above and below the image, and the groups go out in order. |
| PrepControl.Prep.PreProcessData | lib/jpeg-6b/jcprepct.c:127-185 | Whatever the chunks, row group k is made from its own rows, the bottom row repeated, and below the image the last output row is repeated. |
| PrepControl.Prep.Progress | lib/jpeg-6b/jcprepct.c:127-259 | How many groups are out is a function of how many rows are in. |
| MainControl.Main.ProcessData | lib/jpeg-6b/jcmainct.c:112-158 | Each call hands the compressor complete iMCU rows 8r to 8r + 7, each once; rows used and rows counted differ by one just while suspended, and the row counter never goes below zero. |
| MainControl.Main.WriteScanlines | lib/jpeg-6b/jcapistd.c:77-111 | Rows reported as taken are rows used, less one while suspended. |
| MainControl.WriteImage | lib/jpeg-6b/jcmainct.c:112-158 | For all chunk sizes, all suspensions and all room made in between: the image is reported as taken if and only if the compressor has finished, and then the entropy coder has had exactly the MCUs of the scan. |
| MainControl.CompressImage | lib/jpeg-6b/jcmainct.c:112-158 | From scan lines to bytes with the sequential Huffman coder behind the controllers: however it was suspended, an image compressed to its end has become the bytes of its MCUs, and they decode to them; with room for everything, and nothing that cannot be coded, the end is reached. |
| Smoothing.ExpandRightEdge | lib/jpeg-6b/jcsample.c:86-104 | Columns beyond the image repeat its last column; nothing else changes. |
| Smoothing.FullsizeRow | lib/jpeg-6b/jcsample.c:417-450 | The sums of three columns carried along a row equal the eight-neighbour sum with the edges repeated, and each output is the number nearest to the weighted average. |
| Smoothing.FullsizeSmooth | lib/jpeg-6b/jcsample.c:391-453 | Every output sample is the number nearest to the weighted average of the pixel and its eight neighbours, the image's edge columns repeated. |
| Smoothing.SmoothedWithin | lib/jpeg-6b/jcsample.c:411-412 | The weights add to 65536, so a smoothed pixel lies between the least and the greatest of its 3 by 3 square. |
| Smoothing.RoundsToNearest | lib/jpeg-6b/jcsample.c:432-450 | Rounding takes the nearest number, and the greater one of two. |
| Smoothing.Strengths | lib/jpeg-6b/jcsample.c:411-412 | The smoothing factors that are meant are 0 to 100. |
| Smoothing.ShortcutIsMean | lib/jpeg-6b/jcsample.c:304-318 | The weights on four and twelve pixels give exactly the mean of four smoothed pixels. |
| Smoothing.H2V2Smooth | lib/jpeg-6b/jcsample.c:291-382 | Every output sample of the 2:1 filter is the number nearest to the mean of the four smoothed pixels it stands for. |
| Smoothing.MeanWithin | lib/jpeg-6b/jcsample.c:291-382 | Such a sample lies between the least and the greatest pixel of its 4 by 4 square. |
| FatCache.EntrySet | hal/lpc2106-cmucam3/rdcf2.c:254-279 | Setting a FAT entry changes that entry of the disk and no other, including its neighbours in the sector. |
| FatCache.EntryBytes | hal/lpc2106-cmucam3/rdcf2.c:208-242 | The entry of a cluster is a little-endian word, 256 of them to a sector. |
| FatCache.SixteenBits | hal/lpc2106-cmucam3/rdcf2.c:560-570 | Which volumes are FAT16 ones: a highest cluster from 4080 to 65527 that both FATs have room for. |
| FatCache.Volume.StaysMirrored | hal/lpc2106-cmucam3/rdcf2.c:171-186 | After any operations every FAT sector has two copies that agree, or both as they were at the start; so copies that agreed still do, copies of a sector that was written agree, and all this holds on the disk itself once nothing is dirty. |
| FatCache.Volume.FlushBuffer | hal/lpc2106-cmucam3/rdcf2.c:171-186 | Flushing makes the disk equal to the logical disk, which does not change. |
| FatCache.Volume.ReadBuffer | hal/lpc2106-cmucam3/rdcf2.c:193-201 | Reading shows the sector of the logical disk, which does not change whatever was dirty. |
| FatCache.Volume.FatEntry | hal/lpc2106-cmucam3/rdcf2.c:208-242 | The entry of a cluster in range, or the bad-cluster error. |
| FatCache.Volume.SetFatEntry | hal/lpc2106-cmucam3/rdcf2.c:254-279 | Exactly one entry of the logical FAT changes, in both copies, and no directory or data sector. |
| FatChains.AppendKeeps | hal/lpc2106-cmucam3/rdcf2.c:649-663 | Linking a free cluster behind a chain keeps all chains acyclic and disjoint, and everything used accounted for. |
| FatChains.DropHeadKeeps | hal/lpc2106-cmucam3/rdcf2.c:626-641 | Releasing the first cluster of a chain keeps the volume in order, the hint lowered where needed. |
| FatChains.Conservation | hal/lpc2106-cmucam3/rdcf2.c:626-663 | Free, chained and reserved clusters always add up to all of them. |
| FatChains.FullFromHint | hal/lpc2106-cmucam3/rdcf2.c:649-663 | When nothing is free from the hint on, nothing is free at all. |
| FatChains.ChainMarks | hal/lpc2106-cmucam3/rdcf2.c:626-641 | A chain ends with an entry from 0xFFF8 on. |
| FatChains.AppendedMark | hal/lpc2106-cmucam3/rdcf2.c:649-663 | A cluster that is added gets the mark 0xFFF8 and the one before it its number; no other entry changes. |
| FatChains.FreeInNumbers | hal/lpc2106-cmucam3/rdcf2.c:649-656 | The free clusters are those from 2 on whose entry is 0. |
| FatAlloc.AddNewCluster | hal/lpc2106-cmucam3/rdcf2.c:649-663 | Allocation extends just one chain by a free cluster, and fails exactly when the volume is full. |
| FatAlloc.ReleaseFatEntries | hal/lpc2106-cmucam3/rdcf2.c:626-641 | Release terminates on every FAT, cyclic chains included; on a volume in order it frees exactly the chain. |
| FatData.SectorOfInjective | hal/lpc2106-cmucam3/rdcf2.c:993-994 | Two positions of a file share a sector only if they lie within the same 512 bytes. |
| FatData.ByteOnDisk | hal/lpc2106-cmucam3/rdcf2.c:357-361 | In which sector, and where in it, the byte at a position of a file is. |
| FatData.OtherFile | hal/lpc2106-cmucam3/rdcf2.c:956-1028 | Writing one file's sectors leaves the contents of every other file alone. |
| FatFile.File.Seek | hal/lpc2106-cmucam3/rdcf2.c:935-954 | A seek within the file finds the cluster of the position, or the end mark and the true tail; beyond it, an error and nothing changed. |
| FatFile.File.Read | hal/lpc2106-cmucam3/rdcf2.c:889-933 | A read returns the file's bytes from the position on. The cursor then serves a write too if and only if the read did not reach the end of the file at the end of a cluster. |
| FatFile.File.EnsureCluster | hal/lpc2106-cmucam3/rdcf2.c:983-992 | A write behind the last cluster gets a new one linked behind the true tail, and the hint may move past it; the contents do not change. |
| FatFile.File.PutChunk | hal/lpc2106-cmucam3/rdcf2.c:993-1009 | A whole-sector write past the buffer and a partial write through it both splice the bytes into the file; the whole-sector write at the end of the file overwrites no live byte. |
| FatFile.File.Write | hal/lpc2106-cmucam3/rdcf2.c:955-1028 | The contents become the old bytes with the written ones spliced in, as far as the volume has room; the other chains, and every sector that is not the file's, are unchanged. |
| FatFile.File.Truncate | hal/lpc2106-cmucam3/rdcf2.c:805-832 | Truncating frees exactly the file's chain and leaves it empty. |
| FatFile.WriteAndReadBack | hal/lpc2106-cmucam3/rdcf2.c:889-1028 | What a seek and a write put into a file, a seek and a read return. |
| FatLife.WriteMany | hal/lpc2106-cmucam3/rdcf2.c:889-1028 | After any list of seeks and writes the file holds exactly the bytes that they spell, up to the first write that filled the volume; other chains and sectors are unchanged. |
| FatLife.WriteOrClose | hal/lpc2106-cmucam3/rdcf2.c:1030-1040 | A write that gets nothing done closes the handle: the entry then shows the chain as it is, or is gone for an empty file; otherwise the directory is unchanged. |
| FatName.SpecToNameExtension | hal/lpc2106-cmucam3/rdcf2.c:304-329 | Accepts exactly the components with a name and only permitted characters, and yields the 11 bytes: capitals, cut off or padded. |
| FatName.AllowedCharacters | hal/lpc2106-cmucam3/rdcf2.c:287-297 | Which 78 characters are allowed in a name. |
| FatName.NameBytes | hal/lpc2106-cmucam3/rdcf2.c:304-329 | Each of the eight and three bytes is the capital of its character, or a space. |
| FatName.Capitals | hal/lpc2106-cmucam3/rdcf2.c:311-315 | Only the letters a to z are changed to capitals. |
| FatName.PartsEnd | hal/lpc2106-cmucam3/rdcf2.c:311-328 | The name ends at a dot or a slash, the extension at a slash, and there is one only after a dot. |
| FatName.NameExtensionToSpec | hal/lpc2106-cmucam3/rdcf2.c:334-350 | Prints the 11 bytes in at most 13. |
| FatName.NameRoundTrip | hal/lpc2106-cmucam3/rdcf2.c:287-350 | Every accepted component prints in at most 13 bytes, parses back to the same 11 bytes, and they begin with neither mark. |
| FatEntries.NameWritten | hal/lpc2106-cmucam3/rdcf2.c:380-405 | Writing an entry gives its name to the file and changes no other name; the directory stays in order, even where the entry replaces the end mark. |
| FatEntries.NameErased | hal/lpc2106-cmucam3/rdcf2.c:380-405 | Marking an entry as deleted removes its name and no other. |
| FatEntries.FieldsInEntry | hal/lpc2106-cmucam3/rdcf2.c:407-447 | Attribute, time, date, first cluster and size of an entry, byte by byte. |
| FatEntries.PackedEntry | hal/lpc2106-cmucam3/rdcf2.c:380-405 | An entry that is written begins with the 11 bytes of the name, has zeros in its reserved bytes, and reads back. |
| FatEntries.EntryMarks | hal/lpc2106-cmucam3/rdcf2.c:465-499 | 0xE5 marks a deleted entry and 0 the end; bit 3 of the attribute tells volume labels from names. |
| FatPlaces.EntriesChanged | hal/lpc2106-cmucam3/rdcf2.c:368-374 | Writing at a directory position changes that entry of the directory and no other, across clusters and in the root. |
| FatPlaces.EntryOnDisk | hal/lpc2106-cmucam3/rdcf2.c:368-374 | Where on the disk the 32 bytes of a directory entry are, in the root and in clusters. |
| FatPlaces.FileKept | hal/lpc2106-cmucam3/rdcf2.c:380-405 | Directory writes leave the contents of files alone. |
| FatDirectory.Directory.Search | hal/lpc2106-cmucam3/rdcf2.c:465-522 | The search finds the entry of the name, or the first volume label, if there is one before the end mark; if not, it leaves the first free entry, or says that there is none. |
| FatDirectory.Directory.UpdateEntry | hal/lpc2106-cmucam3/rdcf2.c:380-405 | The entry is rewritten under the name it was found by: printing and parsing it again gives the same 11 bytes, and a volume label's are copied as they are. |
| FatDirectory.Directory.LengthenIfNecessary | hal/lpc2106-cmucam3/rdcf2.c:669-697 | A full directory gets one cleared cluster and keeps its names; it fails exactly for a full root directory, or a full directory on a full volume. |
| FatDirectory.Directory.Open | hal/lpc2106-cmucam3/rdcf2.c:788-844 | Which outcome opening has for which entry and mode; creating and truncating change just this name and, for truncation, free just its chain; an error changes nothing. |
| FatDirectory.OpenRefusals | hal/lpc2106-cmucam3/rdcf2.c:616-620 | A directory is never opened; a file with one of the lowest three attribute bits is not opened for writing or truncated, and no other is refused. |
| FatDirectory.NewAndDeleted | hal/lpc2106-cmucam3/rdcf2.c:380-405 | A new file's entry has attribute 32 and nothing else; a deleted one begins with 0xE5 and keeps the rest. |
| FatDirectory.Directory.Delete | hal/lpc2106-cmucam3/rdcf2.c:723-765 | Deleting removes just this name and frees just its chain; it is refused exactly for files with one of the lowest three attribute bits and for directories that are not empty, and then changes nothing. |
| FatDirectory.Directory.DeleteLabel | hal/lpc2106-cmucam3/rdcf2.c:723-765 | An empty name deletes the first volume label, if there is one, and changes no other entry and no file's name. |
| FatDirectory.Directory.DirectoryEmpty | hal/lpc2106-cmucam3/rdcf2.c:733-757 | True exactly if no cluster of the directory has, before its end mark, an entry other than deleted ones and those beginning with a dot. |
| FatDirectory.DeadInNumbers | hal/lpc2106-cmucam3/rdcf2.c:741-750 | The entries that do not count begin with 0xE5 or a dot. |
| FatDirectory.Directory.Close | hal/lpc2106-cmucam3/rdcf2.c:708-721 | Closing a written file brings its entry up to date, or removes its name if it is empty; no other name changes. |
| FatLife.OpenFile | hal/lpc2106-cmucam3/rdcf2.c:788-881 | A file opened stands at its beginning, or at its end when opened for appending only, with the modes asked for, and holds what it held, or nothing when created or truncated; exactly then it counts as written. |
| FatLife.CreateAndWrite | hal/lpc2106-cmucam3/rdcf2.c:708-1028 | A file created, written at any offsets and closed has an entry with its size and chain, and its chain holds the bytes; other names are unchanged; an empty file has no entry. |
| FatLife.WriteCloseReopenRead | hal/lpc2106-cmucam3/rdcf2.c:708-1040 | What a new file was given at all its offsets is what a later reader of its name gets. |
| PixelReader.Camera.SetRoi | hal/lpc2106-cmucam3/cc3.c:402-451 | The region is cut to the image with an even left edge, or refused and unchanged, exactly when nothing is left; the frame stays in order exactly if the left edge is not 32767 or no rows are left. |
| PixelReader.Camera.SetSubsample | hal/lpc2106-cmucam3/cc3.c:458-489 | For every pair of bytes: steps become one or even, the answer is true exactly if nothing had to be changed, and the frame stays in order exactly if the step is not 255. |
| PixelReader.StepWraps | hal/lpc2106-cmucam3/cc3.c:463-476 | A step becomes zero exactly for 255. |
| PixelReader.Camera.SetCoi | hal/lpc2106-cmucam3/cc3.c:496-507 | Channel numbers up to four are accepted, of which the last selects nothing; beyond, nothing changes. |
| PixelReader.Camera.Rewind | hal/lpc2106-cmucam3/cc3.c:195-207 | After a rewind the FIFO stands at the first image row. |
| PixelReader.Camera.ReadPixel | hal/lpc2106-cmucam3/cc3.c:158-186 | Reading a pair once for two pixels, with the saved green and the red and blue already in memory, gives each pixel its own bytes. |
| PixelReader.Camera.ReadRow | hal/lpc2106-cmucam3/cc3.c:298-371 | Every row takes exactly the bytes of one image row from the FIFO, for every width parity, step and channel. |
| PixelReader.Camera.SeekTop | hal/lpc2106-cmucam3/cc3.c:129-137 | Where the FIFO goes from any of its rows; it stands at the row the frame says if and only if it did so before, or stood at row 0 with the frame above the region. |
| PixelReader.Camera.ReadRows | hal/lpc2106-cmucam3/cc3.c:257-378 | From any row of the FIFO, and with the frame above, in or below the region: memory holds the rows that random access would give from where the seek arrives, and all of them lie above the region's bottom exactly if a condition on positions, region and request holds. |
| PixelReader.Inside | hal/lpc2106-cmucam3/cc3.c:257-294 | Exactly when every row that a read delivers lies above the region's bottom, by the row limit that is computed before the seek, for every row of the FIFO. |
| PixelReader.WithinStays | hal/lpc2106-cmucam3/cc3.c:257-294 | A reader that stands in its region stays in it, and so does one above it that is asked for no more rows than there are. |
| PixelReader.WrappedLimit | hal/lpc2106-cmucam3/cc3.c:266-271 | Below the region the unsigned limit is zero within one step, and no limit at all further down. |
| PixelFrame.SubsampledGreen | hal/lpc2106-cmucam3/cc3.c:178-185 | With all channels and subsampling the green is that of the pair's right pixel: the same pixel comes out if and only if the two greens are equal. |
| PixelReader.PixelInMemory | hal/lpc2106-cmucam3/cc3.c:257-378 | Output pixel (j, r) is frame pixel (x0 + j * x_step, y0 + r * y_step), or its right neighbour in that case, at the documented place in memory. |
| PixelFrame.BytesOfPixel | hal/lpc2106-cmucam3/cc3.c:158-186 | Which bytes of the FIFO an output pixel is made of, for every channel and both colour spaces. |
| PixelReader.CountInTwo | hal/lpc2106-cmucam3/cc3.c:257-294 | For every start and any two requests: reading a rows and then b rows delivers as many as reading a + b exactly if the reader stood in or below the region, or b is zero, or the region has that many rows, or the limit did not change, or both calls go beyond the bottom in step. |
| PixelReader.ReadTwice | hal/lpc2106-cmucam3/cc3.c:257-378 | Two reads leave in two places just the rows of one longer read, also when the first one starts above the region. |
| ServoTimer.Servos.SetPosition | hal/lpc2106-cmucam3/servo.c:45-51 | A position may be set at any time without disturbing the period under way. |
| ServoTimer.Servos.Enable | hal/lpc2106-cmucam3/servo.c:102-124 | Enabling the first servo starts the timer; disabling lowers the line, and the last one stops the interrupts; nothing else changes. |
| ServoTimer.Servos.StartPeriod | hal/lpc2106-cmucam3/servo.c:145-155 | All enabled lines go up and the positions are copied. |
| ServoTimer.Servos.ServeLines | hal/lpc2106-cmucam3/servo.c:161-168 | The pulses that are over end, and the least position beyond is found. |
| ServoTimer.Servos.Interrupt | hal/lpc2106-cmucam3/servo.c:135-176 | However late it is served, the schedule is kept, the next match lies ahead of the counter and no subtraction underflows; a wake-up within a period ends pulses exactly if it is served before the period is over. |
| ServoTimer.Servos.PeriodOver | hal/lpc2106-cmucam3/servo.c:135-176 | At the end of every period with an unchanged set, each enabled line has stayed up until its pulse was over or one tick less, give or take the delay of interrupts, and there was at most one wake-up more than servos. |
| ServoTimer.Ticks | hal/lpc2106-cmucam3/servo.c:60-75 | A period has 4590 ticks, the pulse of position p 255 + p, and there are four servos. |
| ServoTimer.RunOnTime | hal/lpc2106-cmucam3/servo.c:45-176 | Over any run in which every match is served in its own tick, with any positions set between the interrupts, each period lowers every enabled line after 255 + p ticks, or one tick earlier if another pulse ended then, p being what was set before the interrupt that began the period. |
| ServoTimer.Run | hal/lpc2106-cmucam3/servo.c:45-176 | All this over any run of interrupts with any delays and any lists of position changes between them. |

## Left out

- Floating point, colour tracking, histograms, connected components, colour conversion and quality scaling: easy, or not exact.
- The forward DCT and quantization: an uninterpreted function from component and block position to coefficients.
- Downsampling without smoothing: what it makes of the rows it sees is left open in the row controllers; its rounding would only add easy members.
- More than one colour component in the row controllers and in the smoothing filter: each component is handled alone, as the source's loops over components do.
- Marker writing: headers are events of the pass state machine, not bytes.
- Arithmetic coding, raw data input, full-image main buffers and colour quantization: not compiled in, or without logic of their own.
- Error numbers: the scan script's errors are one rejection; the coder's errors are told apart.
- The limit on blocks in an MCU: the geometry is proved for every set of legal sampling factors, within the limit or not.
- FAT12, volumes with one FAT, several drives, big-endian processors and everything under `#if 0`.
- I/O errors of the card: every sector access succeeds.
- `rdcf_rename`, setting and reading a volume label, and walking down a path: operations are modelled for the last component, in a directory given by its first cluster.
- Several open handles on one file, and a directory and its files written at the same time through different buffers: one operation at a time uses the shared buffer.
- 32-bit wrap-around of file positions and sector numbers: positions are unbounded.
- Packing of calendar dates: entries carry the two words of the time stamp.
- PixelReader.CountInTwo: for reads that leave the row number within its 16 bits; beyond them it starts again at zero.
- Suspension in the progressive coder: the source does not allow it, and ends with an error; `MainControl.CompressImage` is about the sequential coder in one pass.
- FatDirectory.Directory.DeleteLabel: searches the directory from its first cluster; the source begins at the cluster that the control block was left at.
- PixelReader.Camera.ReadRows: requires fewer than 65536 rows after the limit is applied; with more the 16-bit row counter never reaches it.
- `hal/virtual-cam`, the lpc2103 copies, serial ports, the camera's register bus and the LEDs.
