# The entropy-coding core of jpeg-6b, modelled and proved in Dafny

This project models the Huffman entropy coders of jpeg-6b (ITU-T T.81) and the parts of the
library that decide what they are fed, and proves that what is encoded is decoded.

* Bits and bytes: `Bits`, `BitStream`, `Bytes`, `BitWriter` (put_buffer, stuffing, padding),
  `BitReader` (get_buffer over a source that may run dry for a while).
* Huffman tables: `HuffTable` (canonical codes, bit-serial decoding), `HuffDecoder` (derived
  decoding tables with lookahead).
* Coding on values: `Tokens`, `EobRun` (end-of-band runs across blocks), `Blocks` (point
  transforms), `AcFirst`, `AcRefine`, `AcScan`, `DcScan` for progressive scans, `Sequential`
  for sequential ones, `Scans` and `Restart` for all five kinds of scan.
* The coders as the library writes them: `Emitter`, `EntropyEncoder` (with `EncodeSteps` and
  `SegmentCode`), `MarkerReader`, `EntropyDecoder` (with `DecodeAgain`, `SequentialAgain` and
  `DecodeRun`). They hold the routines of jcphuff.c and jchuff.c, jdphuff.c and jdhuff.c, which
  share everything but the coding of an MCU. Their methods are proved against the functions
  above, so the round trips are about them.
* `Warnings` counts what a decoder warns about, `Requests` says where it asks for data,
  `RoundTrip` puts both coders end to end, and `RepeatedWarnings` holds a file on which
  suspension shows.
* Scripts: `Script` (validate_script and the decoder's progression check), `ScriptRules` (which
  scripts these accept, coefficient by coefficient), `SimpleProgression`, and `Image` and
  `SequentialImage`, where a whole accepted script is encoded and decoded scan by scan. `Passes`
  is the order of passes over an image.
* Geometry: `Geometry` (sizes in blocks and MCUs), `Layouts` (which blocks each MCU of a scan
  holds), `ScanSetup` (per_scan_setup, and the reconstruction theorems for real images),
  `CoefControllers` (the compressor's coefficient controllers and the transcoder's),
  `ConsumeData` (the decompressor's), and `WholeImage`, which runs a whole script from one
  coefficient array to the other.
* Optimal tables: `Sums`, `Huffman` (optimality), `HuffmanChains`, `HuffmanSizes` (the lengths that
  come out), `CodeCounts`, `OptimalTable` (jpeg_gen_optimal_table), `ScanSymbols` (which symbols a
  scan can have), `OptimizedScan` (gather, generate, output).

How things are represented:

* ERREXIT is a failure result and WARNMS a counter. Suspension is a refusal: a source holds a
  fixed byte sequence of which some prefix has arrived.
* Shifts are defined by repeated doubling and halving, so no proof multiplies two variables
  where it can be helped. Or-ing disjoint bit fields is addition.
* DC tables and AC tables of a sequential scan are numbered 0 to 3 and 4 to 7 of one list.
* Blocks are indexed in zigzag order; storing into a JCOEF wraps to 16 bits.
* Decoders are specified on the bits ahead of them: `Src` holds the bits up to the next marker,
  whether zeroes have been made up past their end, and the number of warnings.

Findings that a reader of the source may want to know:

* A decoder call that suspends after a bad code has already issued its warning, and issues it
  again when called again; so does a restart that has to resynchronise and runs out of data on
  the way. Blocks, state and place in the data are unaffected. `RepeatedWarnings.RetryWarnsAgain`
  is such a file: four blocks FF 00 FF 00 80 and EOI, with one Huffman code. The warnings of a run
  in pieces are those of an uninterrupted run plus those that its suspended attempts have issued
  in vain (`EntropyDecoder.DecodeInPieces`). The share of an attempt is the warnings up to a place
  where the MCU asks for data: none beyond the data that has arrived, nor one more than 42 bits
  short of it, for the bits that may be buffered and the longest code (`DecodeRun.Attempted`,
  `NotYetAsked`, `AskedPast`). So an MCU can get a warning twice only if it asks for data after a
  warning (`Requests.Asks`), or if the marker at its restart is one to be skipped. If no MCU of
  the scan does, no arrival pattern gives more warnings (`DecodeRun.NothingInVain`): that is so in
  every first AC scan and DC refinement without such markers (`Requests.NeverAfterWarning`) and in
  everything the encoder writes (`RoundTrip.DecodeWritten`). If one does, every arrival pattern
  by which an attempt at it gives up after 42 bits beyond that place have arrived gives more
  (`DecodeRun.SomeInVain`).
* On corrupt data decode_mcu_AC_refine can store a new coefficient just past the end of the
  band, over one that is already nonzero (`AcScan.StoresPastBand`). Re-zeroing it would lose data,
  but no suspension can follow in that MCU; the proof of `EntropyDecoder.Decoder.RefineLoop`
  depends on it.
* jpeg_gen_optimal_table counts code lengths in UINT8 cells. The model keeps them as bytes and
  needs at most 255 symbols (the pseudo-symbol included) for no cell to overflow. An accepted
  scan never uses a symbol whose size is over 11, so it has fewer (`ScanSymbols.AllFine`).
* The decoder's progression check does not notice a coefficient whose last bit has been sent being
  sent again, where the encoder refuses such a script (`ScriptRules.SentAgain`); apart from that
  both accept the same scripts (`ScriptRules.DecoderTakes`).

## Model

| member | source | states |
|---|---|---|
| HuffTable.MakeCDerivedTbl | jpeg-6b/jchuff.c:179-264 | accepts a table number exactly when it is in range, defined, its counts fit a binary tree with a spare slot at every length, and no symbol is out of range or listed twice; then every symbol gets its canonical code, and size 0 if it has none |
| HuffTable.HuffSizes | jpeg-6b/jchuff.c:211-219 | huffsize lists the length of each code in order; refused exactly when more than 256 codes are counted |
| HuffTable.HuffCodes | jpeg-6b/jchuff.c:221-244 | huffcode lists the canonical code values; refused exactly when some length overflows its code space |
| HuffTable.IndexBySymbol | jpeg-6b/jchuff.c:246-263 | figure C.3 of T.81: refuses out-of-range and repeated symbols, both directions |
| HuffTable.PrefixFree | jpeg-6b/jchuff.c:221-263 | no code of an accepted table is a prefix of another |
| HuffTable.NeverAllOnes | jpeg-6b/jchuff.c:236-242 | no code of an accepted table consists of ones only, so padding bits are never a code |
| HuffTable.DecodeCode | jpeg-6b/jdhuff.c:398-433 | bit-serial decoding of the bits of a code gives its symbol and eats exactly those bits, whatever follows |
| HuffDecoder.MakeDDerivedTbl | jpeg-6b/jdhuff.c:149-266 | the decoder accepts exactly the legal tables (DC symbols at most 15); maxcode, valoffset and the 8-bit lookahead tables agree with the canonical code |
| HuffDecoder.DDerivedTbl.FillLookahead | jpeg-6b/jdhuff.c:224-250 | a lookahead entry is set exactly for the 8-bit patterns that start with a code of at most 8 bits |
| HuffDecoder.LookaheadHit | jpeg-6b/jdhuff.h:176-196 | a lookahead hit gives the symbol and length of bit-serial decoding from length 1 |
| HuffDecoder.LookaheadMiss | jpeg-6b/jdhuff.h:176-196 | after a miss, starting the slow decoder at 9 bits loses nothing |
| BitWriter.Writer.EmitBits | jpeg-6b/jchuff.c:302-336 | appends exactly the low bits of the code to the segment; fails only for size 0; never more than 7 bits stay buffered |
| BitWriter.Writer.FlushBits | jpeg-6b/jchuff.c:340-347 | the segment ends padded with fewer than 8 ones and byte-stuffed |
| Bytes.ScanSegment | jpeg-6b/jdhuff.c:306-360 | the stuffed, padded bytes of a segment followed by a marker read back as its bits, the padding, that marker and the rest |
| BitReader.Decompress.FillBitBuffer | jpeg-6b/jdhuff.c:292-389 | the stream ahead is unchanged; past a marker zeroes are supplied with one warning per segment; a refusal changes nothing, never happens past a marker, never when all data up to a marker has arrived, and only with fewer than 25 arrived bits left |
| BitReader.Decompress.NextByte | jpeg-6b/jdhuff.c:309-356 | one data byte with stuffing removed, extra FFs skipped, or the marker that ends the segment |
| BitReader.Decompress.GetBits | jpeg-6b/jdhuff.h:138-151 | the next bits of the eventual data, independent of how much has arrived |
| BitReader.Decompress.HuffDecode | jpeg-6b/jdhuff.h:176-196 | HUFF_DECODE with lookahead equals bit-serial decoding of the eventual data; a refusal changes nothing and means that fewer than 42 arrived bits are left |
| BitReader.Decompress.SlowDecode | jpeg-6b/jdhuff.c:398-433 | jpeg_huff_decode equals bit-serial decoding from its starting length; a bad code gives 0 and a warning by length 17 |
| Bits.ExtendField | jpeg-6b/jdhuff.c:441-459 | HUFF_EXTEND undoes the value field the encoders write |
| EobRun.StepPending | jpeg-6b/jcphuff.c:541-545 | between blocks EOBRUN < 0x7FFF, at most 937 correction bits are buffered, and none without an open run |
| EobRun.RunLinear | jpeg-6b/jcphuff.c:316-340 | deferring end-of-band runs and their correction bits across blocks writes the tokens in the order a block-by-block decoder reads them |
| AcFirst.FirstReads | jpeg-6b/jdphuff.c:382-424 | decoding a first AC block from the open zero run undoes encoding it: coefficients truncated toward zero, run lengths and bits consumed exactly |
| AcFirst.EobRead | jpeg-6b/jdphuff.c:407-417 | an EOBn symbol and its appended bits read back as the run length |
| AcRefine.RefineReads | jpeg-6b/jdphuff.c:525-617 | decoding an AC refinement block undoes encoding it: ZRLs, signs and correction bits are consumed in the order they were emitted |
| AcScan.LinearReads | jpeg-6b/jdphuff.c:491-633 | a run of AC blocks reads back block by block, inside and outside end-of-band runs |
| AcScan.AcSegment | jpeg-6b/jcphuff.c:464-738 | a whole restart segment of an AC scan, first or refining, reads back exactly |
| DcScan.FirstReads | jpeg-6b/jdphuff.c:286-340 | a run of MCUs of a first DC scan reads back to the point-transformed DC values |
| DcScan.RefineReads | jpeg-6b/jdphuff.c:442-480 | a DC refinement run sets exactly the bits that were sent |
| DcScan.RefineCompletes | jpeg-6b/jdphuff.c:468-471 | setting the sent bit takes a DC coefficient from Al+1 to Al bits known |
| Scans.SegmentReads | jpeg-6b/jdphuff.c:286-633 | any segment of any of the four progressive scan kinds or of a sequential scan reads back to the target blocks with no warning and only padding left |
| Restart.SegsRead | jpeg-6b/jdphuff.c:228-265 | segments separated by the eight cyclic restart markers are decoded one after the other |
| Restart.ScanRoundTrip | jpeg-6b/jcphuff.c:347-368 | the bytes of a scan, for every restart interval, decode to the target blocks without a warning and the input ends at the closing marker |
| AcScan.StoresPastBand | jpeg-6b/jdphuff.c:583-592 | on corrupt data a refinement of coefficient 1 alone overwrites a nonzero coefficient 2 |
| Requests.McuChain | jpeg-6b/jdphuff.c:266-280 | the places where an MCU asks for data follow one another in its segment, from its start to its end, whatever the kind of scan |
| Requests.PastRepeats | jpeg-6b/jdphuff.c:266-280 | an attempt at any MCU that suspends beyond a place has issued the warnings up to there |
| Requests.NeverAfterWarning | jpeg-6b/jdphuff.c:357-435 | no MCU of a first AC scan, of a DC refinement or with a single DC coefficient asks for data after a warning |
| Requests.AfterBadSize | jpeg-6b/jdphuff.c:533-542 | a refinement block does after any coefficient size other than 1 |
| Requests.AfterBadBlock | jpeg-6b/jdhuff.c:535-620 | a sequential MCU does after a warning in any block but the last |
| DecodeRun.NotAsked | jpeg-6b/jdphuff.c:266-280 | an attempt at an MCU that does not ask for data after a warning, and has no marker to skip before it, has issued none in vain |
| DecodeRun.AskedPast | jpeg-6b/jdphuff.c:266-280 | an attempt that suspends at least 42 bits beyond such a warning has issued it in vain |
| DecodeRun.NotYetAsked | jpeg-6b/jdphuff.c:266-280 | an attempt has issued nothing for places whose data had not arrived |
| DecodeRun.NothingInVain | jpeg-6b/jdphuff.c:266-280 | a scan in which no MCU asks for data after a warning gets no more warnings in pieces than at once |
| DecodeRun.SomeInVain | jpeg-6b/jdphuff.c:266-280 | it gets more as soon as one attempt suspends beyond a warning, or at a restart after a marker to be skipped has arrived |
| OptimalTable.CodeSizesOptimal | jpeg-6b/jchuff.c:722-772 | for all counts the lengths of Huffman's algorithm, ties broken as in the source, are those of an optimal code |
| Restart.LostInterval | jpeg-6b/jdmarker.c:1192-1234 | when a restart marker one or two ahead is found, an interval is decoded as empty and consumes no input |
| Restart.RestartRecovery | jpeg-6b/jdmarker.c:1113-1234 | if one or two consecutive segments are lost with their markers, every later segment is still decoded into its own interval |
| MarkerReader.SeekMarker | jpeg-6b/jdmarker.c:874-917 | next_marker finds the next real marker; a refusal keeps its place and means that this marker has not arrived |
| MarkerReader.ResyncToRestart | jpeg-6b/jdmarker.c:1192-1234 | the three recovery actions, for each marker the one that `Restart.DecideIs` names; giving up for want of data leaves a state from which a second call decides the same |
| MarkerReader.ReadRestartMarker | jpeg-6b/jdmarker.c:1113-1139 | swallows the expected marker or resynchronises; a refused call has warned exactly if a marker to be skipped had arrived, will warn again in the same cases, and a second call ends in the same place |
| MarkerReader.ResyncBlind | jpeg-6b/jdmarker.c:1198-1233 | where resynchronisation ends does not depend on the warnings so far |
| Emitter.Emitter.EmitSymbol | jpeg-6b/jcphuff.c:281-290 | writes the code of the symbol, or counts it; fails exactly for a symbol without a code when writing |
| Emitter.Emitter.EmitBits | jpeg-6b/jcphuff.c:228-264 | appends the field, or nothing while gathering |
| Emitter.Emitter.EndSegment | jpeg-6b/jcphuff.c:353-357 | the closed segment is the padded bits of its tokens, followed by the marker |
| EntropyEncoder.Encoder.EmitBufferedBits | jpeg-6b/jcphuff.c:297-309 | the buffered bits go out in order |
| EntropyEncoder.Encoder.EmitEobrun | jpeg-6b/jcphuff.c:316-340 | the open run is written with its correction bits and closed; EOBRUN fits 15 bits, so the safety check never fires |
| EntropyEncoder.Encoder.EncodeAcFirst | jpeg-6b/jcphuff.c:464-558 | the loop writes exactly the tokens of the block and leaves the run state of the block-by-block function; refused exactly for an out-of-range coefficient or a symbol without a code |
| EntropyEncoder.Encoder.EncodeAcRefine | jpeg-6b/jcphuff.c:618-739 | the loop writes exactly the tokens of the block, whose symbols are those of `AcScan.CodeSymbols`; the correction bits stay within the 1000-entry buffer |
| EntropyEncoder.Encoder.AbsValues | jpeg-6b/jcphuff.c:650-665 | the pre-pass finds the last coefficient whose magnitude becomes 1, or 0 if there is none |
| EntropyEncoder.Encoder.EncodeDcFirst | jpeg-6b/jcphuff.c:377-456 | the tokens and predictions of the MCU; refused exactly for an out-of-range difference or a symbol without a code |
| EntropyEncoder.Encoder.EncodeDcRefine | jpeg-6b/jcphuff.c:571-611 | one bit for each block |
| EntropyEncoder.Encoder.EmitRestart | jpeg-6b/jcphuff.c:347-369 | the open segment is closed with the right marker and all state starts afresh |
| EntropyEncoder.Encoder.EncodeMcu | jpeg-6b/jcphuff.c:385-455 | keeps the invariant that everything emitted is what the MCUs so far call for, restarts and counters included |
| EntropyEncoder.Encoder.FinishPass | jpeg-6b/jcphuff.c:746-758 | the last run and the last bits are flushed |
| EntropyEncoder.Encoder.EncodePass | jpeg-6b/jcphuff.c:106-813 | a pass succeeds exactly when nothing is out of range or without a code; an output pass has then written the bytes of the scan, a statistics pass has counted exactly the symbols of those bytes |
| EntropyEncoder.StartPass | jpeg-6b/jcphuff.c:106-192 | each routine needs only its own tables; refused exactly when one of them is unusable |
| SegmentCode.RefusedLater | jpeg-6b/jcphuff.c:412-449 | what is refused early is refused in every segment that starts the same way |
| SegmentCode.CloseSegment | jpeg-6b/jcphuff.c:347-369 | closing a segment extends the bytes and the token history by exactly that segment |
| SegmentCode.NextMcu | jpeg-6b/jcphuff.c:444-452 | cutting the scan into intervals as MCUs go by gives the intervals of the whole scan |
| EncodeSteps.StepHead | jpeg-6b/jcphuff.c:506-530 | writing the front of a block now leaves the rest to be coded from there |
| EntropyDecoder.Decoder.DecodeAcFirst | jpeg-6b/jdphuff.c:357-435 | a completed call decodes the block; a suspended call has issued no warning and leaves a block from which a second call gives the same result |
| EntropyDecoder.Decoder.RefineLoop | jpeg-6b/jdphuff.c:525-596 | the coefficient loop, with the positions needed to undo it |
| EntropyDecoder.Decoder.Undo | jpeg-6b/jdphuff.c:627-632 | exactly the newly nonzero coefficients are zero again |
| EntropyDecoder.Decoder.DecodeAcRefine | jpeg-6b/jdphuff.c:491-633 | the same for refinement: re-zeroing and the "bit already set" test make a second attempt, over corrections already applied, end in the same block; a suspended call has issued exactly the warnings up to one of the places where the block asks for data |
| EntropyDecoder.Decoder.DecodeDcFirst | jpeg-6b/jdphuff.c:286-349 | predictions are stored back only with the whole MCU; a second attempt gives the same blocks; a suspended call has issued exactly the warnings of its complete blocks |
| EntropyDecoder.Decoder.DecodeDcRefine | jpeg-6b/jdphuff.c:442-484 | or-ing the bit in again is safe, and no warning comes before a suspension |
| EntropyDecoder.Decoder.ProcessRestart | jpeg-6b/jdphuff.c:228-265 | the state starts afresh at the next segment; a refusal is transparent but for one warning, issued exactly if a marker to be skipped had arrived |
| EntropyDecoder.Decoder.DecodeMcu | jpeg-6b/jdphuff.c:286-633 | a completed call is one step of the scan; a suspended call leaves a step that comes to the same, with exactly the warnings more that it has issued in vain: those up to a place where the MCU asks for data, none beyond what has arrived and none more than 42 bits short of it; with all data there and a marker at its end no call suspends |
| EntropyDecoder.DecodeMcuInPieces | jpeg-6b/jdphuff.c:286-633 | retrying after each arrival completes the same step; the warnings are those of the step and those of the listed attempts, each as the data and what had arrived determine it |
| EntropyDecoder.DecodeInPieces | jpeg-6b/jdphuff.c:286-633 | for any split of the data into arrivals the blocks and the place reached are those of an uninterrupted run, and the warnings exceed its by exactly the sum over the listed attempts, each of which has issued the warnings up to a place, as the data and what had arrived determine it; by none if no MCU asks for data after a warning; data that ends with a marker is decoded to the end |
| EntropyDecoder.StartPass | jpeg-6b/jdphuff.c:92-193 | accepted exactly for good scan parameters and usable tables |
| DecodeAgain.FirstAgain | jpeg-6b/jdphuff.c:273-279 | coefficients a first attempt stored are stored again, whatever it got to |
| DecodeAgain.RefAgain | jpeg-6b/jdphuff.c:506-515 | corrections already applied are not applied again and change nothing else |
| DecodeAgain.GrowTwice | jpeg-6b/jdphuff.c:569-574 | the bit test on a negative or positive coefficient makes a second correction a no-op |
| DecodeAgain.SetTwice | jpeg-6b/jdphuff.c:470-473 | setting a bit twice is setting it once |
| DecodeRun.ScanBlind | jpeg-6b/jdphuff.c:266-280 | the decoded blocks do not depend on the number of warnings |
| DecodeRun.ScanSilent | jpeg-6b/jdphuff.c:266-280 | warnings only accumulate; a scan whose decoding adds none never asks for data after one |
| DecodeRun.DataRetry | jpeg-6b/jdphuff.c:266-280 | after an attempt that gave up, the MCU ends the same, that many warnings later; the attempt and all later ones issue what the places of the uninterrupted MCU say |
| DecodeRun.StepSound | jpeg-6b/jdmarker.c:1192-1234 | in data that ends with a marker such as EOI a restart always finds its way |
| Script.ValidateScript | jpeg-6b/jcmaster.c:130-261 | accepts exactly the valid scripts, and tells progressive from sequential ones; `ScriptRules.SequentialAccepted` and `ProgressiveAccepted` say which scripts are valid |
| Script.CheckCoefs | jpeg-6b/jcmaster.c:211-231 | the per-coefficient progression test, both directions, and the updated table |
| Script.ScriptDecodesQuietly | jpeg-6b/jdphuff.c:100-146 | an accepted progressive script passes the decoder's own checks with no error and no warning |
| Script.UpdateCoefBits | jpeg-6b/jdphuff.c:134-146 | refuses exactly the bad parameters, updates coef_bits, and warns once for each coefficient that does not continue its chain and once for AC before DC |
| Script.NoWarnings | jpeg-6b/jdphuff.c:134-146 | the decoder has nothing to warn about exactly when every component of the scan is continued properly |
| SimpleProgression.MakeSimpleProgression | jpeg-6b/jcparam.c:537-608 | fills exactly num_scans entries with the standard scripts |
| SimpleProgression.SimpleScriptComplete | jpeg-6b/jcparam.c:574-608 | the standard scripts are always accepted and end every coefficient at Al = 0 |
| Image.ScriptReconstructs | jpeg-6b/jcmaster.c:130-261 | for every accepted script and every codable image, decoding the scans in order gives each coefficient of each real block down to the last bit sent: AC toward zero, DC toward minus infinity |
| Image.CompleteScriptIsLossless | jpeg-6b/jcmaster.c:200-258 | scripts that end at Al = 0 reconstruct the coefficients bit for bit |
| Image.PassReads | jpeg-6b/jdphuff.c:286-633 | one accepted scan takes the arrays from what was known to what is known next |
| Image.ScatterAt | jpeg-6b/jdcoefct.c:244-303 | a store over a layout: every block of the layout ends up as decoded, every other block untouched |
| Huffman.Deepest | jpeg-6b/jchuff.c:724-746 | some code lengths that are no worse give the two rarest symbols the same, longest, length |
| Huffman.BoundMerge | jpeg-6b/jchuff.c:748-750 | every merge raises the lower bound on the cost by the merged weight |
| Huffman.PrefixKraft | jpeg-6b/jchuff.c:705-776 | every prefix code satisfies Kraft's inequality |
| HuffmanChains.MergeShaped | jpeg-6b/jchuff.c:752-771 | each `others` chain holds exactly the leaves of one subtree, every used symbol in exactly one chain |
| HuffmanChains.CompleteJoin | jpeg-6b/jchuff.c:752-771 | the code lengths within a chain fill a binary tree exactly |
| OptimalTable.FindLeast | jpeg-6b/jchuff.c:724-746 | the least nonzero count, the larger symbol in case of ties |
| OptimalTable.Deepen | jpeg-6b/jchuff.c:752-771 | walks the chain and lengthens exactly its members |
| OptimalTable.MergeAll | jpeg-6b/jchuff.c:722-772 | the merging loop ends with one group, the invariant, and the lengths of Huffman's algorithm |
| OptimalTable.NoCheaperCode | jpeg-6b/jchuff.c:715-776 | no prefix code on the used symbols and the pseudo-symbol costs fewer bits |
| OptimalTable.CountSizes | jpeg-6b/jchuff.c:774-785 | JERR_HUFF_CLEN_OVERFLOW exactly when a length exceeds 32; otherwise the counts by length |
| OptimalTable.AdjustedFull | jpeg-6b/jchuff.c:797-808 | one limiting step keeps the number of symbols and Kraft's sum at 1 |
| OptimalTable.ShorterExists | jpeg-6b/jchuff.c:799-801 | the search for a shorter length always finds one |
| OptimalTable.LimitLengths | jpeg-6b/jchuff.c:797-808 | terminates with all lengths at most 16 and the code still full; the counts are those that a run of limiting steps (`LimitedRun`) ends in |
| OptimalTable.RemovedSpare | jpeg-6b/jchuff.c:810-813 | taking out the pseudo-symbol leaves the all-ones code free at every length |
| OptimalTable.ListSymbols | jpeg-6b/jchuff.c:818-832 | the real symbols, each once, sorted by code length and number |
| OptimalTable.GenOptimalTable | jpeg-6b/jchuff.c:705-838 | the lengths of Huffman's algorithm are optimal over all prefix codes and fill the tree; the table is accepted by jpeg_make_c_derived_tbl, has a code for exactly the symbols that occur, lists them by these lengths, and if none is over 16 gives every symbol just this length; its counts are the limited ones less one of the longest (`TableCounts`); refused exactly when one of these lengths is over 32 |
| OptimizedScan.SecondPass | jpeg-6b/jcphuff.c:281-290 | a scan whose statistics could be gathered can be written with tables that cover them |
| OptimizedScan.FinishGather | jpeg-6b/jcphuff.c:767-813 | each table in use gets codes for exactly the symbols counted; refused exactly when Huffman's algorithm gives one of them a code of more than 32 bits |
| OptimizedScan.OutputPass | jpeg-6b/jcphuff.c:281-290 | with tables made from its own statistics the output pass never raises JERR_HUFF_MISSING_CODE |
| Sequential.BlockReads | jpeg-6b/jchuff.c:353-443 | decoding the tokens of a block into zeroed storage gives the whole block back, and the DC value as next prediction |
| Sequential.McuReads | jpeg-6b/jdhuff.c:517-627 | every block of an MCU comes back, the components sharing their predictions |
| EntropyEncoder.Encoder.EncodeAcCoefs | jpeg-6b/jchuff.c:393-440 | the loop writes exactly the AC tokens; refused exactly for an out-of-range coefficient or a symbol without a code |
| EntropyEncoder.Encoder.EncodeOneBlock | jpeg-6b/jchuff.c:353-443 | the same for a block, its DC difference limited to one bit more |
| EntropyEncoder.Encoder.EncodeSequential | jpeg-6b/jchuff.c:476-512 | the tokens and predictions of the MCU, when writing and when gathering |
| EntropyEncoder.StartPassHuff | jpeg-6b/jchuff.c:105-168 | accepted exactly when both tables of every component are usable; gathering needs only their numbers |
| EntropyDecoder.Decoder.AcCoefsLoop | jpeg-6b/jdhuff.c:571-594 | decodes the AC coefficients; a suspended attempt has stored only what a second one stores |
| EntropyDecoder.Decoder.DecodeBlock | jpeg-6b/jdhuff.c:547-594 | one block: difference, prediction and AC coefficients |
| EntropyDecoder.Decoder.DecodeSequential | jpeg-6b/jdhuff.c:517-627 | a completed call decodes the MCU and only then stores predictions; a suspended call leaves blocks from which a second call gives the same, and has issued exactly the warnings up to one of the places where the MCU asks for data |
| EntropyDecoder.StartPassHuff | jpeg-6b/jdhuff.c:86-138 | accepted exactly when both tables of every component are usable; other than sequential parameters cost one warning |
| SequentialAgain.AcStores | jpeg-6b/jdhuff.c:571-594 | the decoder stores only at positions that the data determines |
| SequentialAgain.WholeAgain | jpeg-6b/jdhuff.c:510-514 | coefficients assigned by an interrupted attempt are assigned again, with the same end |
| SequentialAgain.McuFrom | jpeg-6b/jdhuff.c:535-620 | the MCU is its blocks in turn, each decoded from where the last one ended |
| OptimizedScan.GatherPass | jpeg-6b/jchuff.c:559-673 | a statistics pass followed by table generation leaves tables made from exactly the symbols of the scan; refused exactly when the scan itself is, or when a code of more than 32 bits comes out |
| OptimizedScan.OutputPassHuff | jpeg-6b/jchuff.c:353-443 | an optimised sequential scan is always written: no symbol lacks a code, because gathering agrees with encoding |
| SequentialImage.WholePassReads | jpeg-6b/jdhuff.c:517-627 | one sequential scan completes the blocks of its components and touches no others |
| SequentialImage.SequentialScriptIsLossless | jpeg-6b/jcmaster.c:233-261 | for every accepted sequential script, in however many scans, every real block of every component comes back bit for bit |
| ScanSymbols.AllFine | jpeg-6b/jcphuff.c:403-440 | every symbol of an accepted scan belongs to a table in use and has a size of at most 11, a DC symbol being nothing but its size |
| ScanSymbols.AllHas | jpeg-6b/jcphuff.c:767-813 | every table in use gets at least one symbol |
| OptimizedScan.StatisticsCountable | jpeg-6b/jchuff.c:705-776 | so the statistics of an accepted scan are fit for jpeg_gen_optimal_table: at least one and at most 254 symbols occur |
| RoundTrip.WrittenReads | jpeg-6b/jdphuff.c:266-280 | the uninterrupted decoding of what an encoder wrote gives the targets and never asks for data after a warning |
| RoundTrip.DecodeWritten | jpeg-6b/jdphuff.c:266-280 | in any pieces, decoding what was written gives the targets and no warning, and stops at the marker that follows |
| RoundTrip.SendScan | jpeg-6b/jcphuff.c:106-189 | start_pass, the encoding pass, start_pass and the decoding of a progressive scan in any pieces: refused exactly for unusable tables, coefficients out of range or symbols without a code; otherwise the targets, without a warning |
| RoundTrip.SendSequentialScan | jpeg-6b/jchuff.c:105-168 | the same for a sequential scan |
| RepeatedWarnings.OnesAreBad | jpeg-6b/jdhuff.c:416-430 | no legal table has a code for seventeen ones: they are skipped with a warning |
| RepeatedWarnings.RetryWarnsAgain | jpeg-6b/jdhuff.c:510-535 | two decoders of the same 22 bytes: one gets them at once and raises four warnings, the other gets them in two pieces, the second of which begins at byte 15 to 19, and raises more; the blocks are the same |
| WholeImage.CarryProgressive | jpeg-6b/jccoefct.c:341-395 | one progressive scan through controller, encoder, decoder and consume_data: refused exactly when it cannot be sent; otherwise the arrays go from what was known to what is known next, without a warning |
| WholeImage.CarrySequential | jpeg-6b/jccoefct.c:341-395 | the same for a sequential scan: its components are completed |
| WholeImage.CarryImage | jpeg-6b/jcapimin.c:147-181 | a whole image, for every suspension pattern and every split into arrivals: refused exactly when the script is invalid or a scan cannot be sent; otherwise every real block comes back without a warning, bit for bit or down to the last bit sent |
| Geometry.NestedCeil | jpeg-6b/jcmaster.c:93-123 | of the groups that cover a component all but the last are full and the last is not empty, in spite of the two roundings |
| Layouts.LayoutDistinct | jpeg-6b/jcmaster.c:336-380 | no block is visited twice in a scan |
| Layouts.RealVisited | jpeg-6b/jcmaster.c:316-380 | every real block of the components in a scan is visited |
| Layouts.LayoutInside | jpeg-6b/jccoefct.c:416-432 | every block visited lies in the padded arrays; without interleaving it is a real one |
| ScanSetup.PerScanSetup | jpeg-6b/jcmaster.c:308-389 | the MCU counts, memberships, last column widths and row heights are those of the layout; refused exactly for too many components or blocks; restart_in_rows is clamped to 65535 |
| ScanSetup.SetUpFits | jpeg-6b/jcmaster.c:308-389 | the layout that per_scan_setup stands for meets what the reconstruction theorems ask of one |
| ScanSetup.FrameReconstructs | jpeg-6b/jcmaster.c:46-124 | for every image size, sampling, accepted progressive script and usable tables, each coefficient of each real block comes back down to the last bit sent |
| ScanSetup.SequentialFrameIsLossless | jpeg-6b/jcmaster.c:46-124 | for every image size, sampling and accepted sequential script every real block comes back bit for bit |
| CoefControllers.RealRow | jpeg-6b/jccoefct.c:170-188 | the padded content to the right of the last real block |
| CoefControllers.DummyRow | jpeg-6b/jccoefct.c:189-196 | the padded content below the last real row |
| CoefControllers.Controller.CompressRow | jpeg-6b/jccoefct.c:143-218 | one iMCU row: the MCUs of the layout so far, whatever the suspensions; a suspension keeps the place |
| CoefControllers.Controller.CompressScan | jpeg-6b/jccoefct.c:341-395 | a whole pass in any of the three modes sends exactly the padded blocks in the order of the layout |
| CoefControllers.Controller.FillRealRow | jpeg-6b/jccoefct.c:277-295 | one block row of the arrays with its dummy blocks |
| CoefControllers.Controller.FillDummyRow | jpeg-6b/jccoefct.c:296-319 | one row of dummy blocks |
| CoefControllers.Controller.FillRows | jpeg-6b/jccoefct.c:256-320 | the current rows of every component hold the padded content, the others are as they were |
| CoefControllers.Controller.FirstPassRow | jpeg-6b/jccoefct.c:245-327 | fills the current rows and then compresses them; doing all of it again after a suspension changes nothing |
| CoefControllers.Controller.FirstPassScan | jpeg-6b/jccoefct.c:245-327 | a whole first pass sends the MCUs of its scan and leaves the arrays holding the padded content of every component |
| CoefControllers.FourWays | jpeg-6b/jctrans.c:278-351 | single pass, first pass, later pass and transcoding send the same MCUs, each with its own suspensions |
| CoefControllers.RequestArrays | jpeg-6b/jccoefct.c:416-432 | the arrays requested are zeroed and hold exactly the padded components |
| ConsumeData.Consumer.ConsumeRow | jpeg-6b/jdcoefct.c:244-303 | one iMCU row of the input: the MCUs so far are stored where the layout has their blocks, whatever the suspensions |
| ConsumeData.Consumer.ConsumeScan | jpeg-6b/jdcoefct.c:244-303 | a whole scan stores every decoded MCU in its place, and touches nothing else |
| Passes.Master.PrepareForPass | jpeg-6b/jcmaster.c:401-475 | what the next pass is for, the parameters selected and the headers written; is_last_pass exactly before the last; a DC refinement scan is not gathered |
| Passes.Master.FinishPass | jpeg-6b/jcmaster.c:503-535 | the pass that follows and the scan it is for |
| Passes.Compress | jpeg-6b/jcapimin.c:147-181 | a compression or transcoding makes exactly total_passes passes, and they do what `StatisticsFirst`, `NoStatistics`, `SentOnce` and `FileIs` say |
| Passes.SentOnce | jpeg-6b/jcapimin.c:147-181 | every scan goes out once, and the frame header once |
| Bits.ValueBits | jpeg-6b/jchuff.c:362-370 | a positive value is written in binary without leading zeroes, its negative as the complement of the same bits |
| Blocks.PointTransforms | jpeg-6b/jcphuff.c:496-520 | the AC point transform keeps the multiple of 1 << Al next to the value towards zero, the DC one the multiple next below |
| Bytes.FillBytes | jpeg-6b/jdhuff.c:309-330 | bytes other than FF are neither stuffed nor changed, and any number of further FFs before a marker code is skipped |
| HuffTable.Canonical | jpeg-6b/jchuff.c:221-244 | the first code is all zeroes and each next one is the one before plus one, lengthened with zeroes where the length grows |
| HuffTable.LegalIs | jpeg-6b/jchuff.c:179-264 | a table is refused exactly for more than 256 codes, for a code that is all ones or too long for its length, and by the encoder for a repeated symbol; in DC tables for a symbol over 15 |
| DcScan.Predictions | jpeg-6b/jcphuff.c:399-440 | each block of a DC scan is coded as its difference from the last earlier block of the same component, or from the starting prediction |
| DcScan.DiffBits | jpeg-6b/jcphuff.c:410-438 | a difference is the number of bits of its magnitude, then that many bits, the first of which is its sign |
| DcScan.RefineBit | jpeg-6b/jcphuff.c:586-594 | a DC refinement sends bit Al of each coefficient and the decoder sets it |
| Sequential.Predictions | jpeg-6b/jchuff.c:476-512 | each block of a sequential scan is coded with the DC value of the last earlier block of its component, and by the tables of its component |
| Sequential.BlockSymbols | jpeg-6b/jchuff.c:393-440 | the AC symbols of a block: run and size of each nonzero coefficient, and an end-of-block exactly if the last coefficient is zero |
| Scans.OneRun | jpeg-6b/jcphuff.c:399-440 | predictions run on across the MCUs of a segment, from zero |
| Scans.OutOfData | jpeg-6b/jdphuff.c:303-312 | once the data has run out, no kind of scan changes a block, a prediction or the run, or warns again |
| SegmentCode.DcInRangeIs | jpeg-6b/jcphuff.c:426-430 | the DC differences that are not refused are exactly those between -2048 and 2048 |
| AcFirst.RangeIs | jpeg-6b/jcphuff.c:524-529 | the AC coefficients that are not refused are exactly those between -1024 and 1024 after the point transform |
| AcFirst.FirstSymbols | jpeg-6b/jcphuff.c:490-540 | the symbols of a first AC block: for each nonzero coefficient sixteens of its run of zeroes, then the rest of the run with its size; none after the last |
| AcRefine.EobPosIs | jpeg-6b/jcphuff.c:645-658 | EOB is the last coefficient that becomes nonzero in this scan, or 0 |
| AcRefine.RefineSymbols | jpeg-6b/jcphuff.c:661-712 | the symbols of a refinement block: for each coefficient that becomes nonzero sixteens of its run of coefficients that stay zero, then the rest of the run; none after the last |
| AcRefine.NewInPlace | jpeg-6b/jcphuff.c:695-710 | after such a symbol come the sign, 1 for positive, and then the correction bits of the coefficients passed |
| AcScan.CodeSymbols | jpeg-6b/jcphuff.c:661-712 | the encoder writes these symbols and no others for a block of either kind |
| AcScan.NoNewNoHead | jpeg-6b/jcphuff.c:672-712 | a block in which no coefficient becomes nonzero writes nothing of its own and leaves the open run open |
| EobRun.RunsAreLong | jpeg-6b/jcphuff.c:541-545 | a block that can join the open run does; the run is written out only when it reaches 32767 blocks or more than 937 correction bits are buffered |
| EobRun.RunAsNumber | jpeg-6b/jcphuff.c:316-340 | a run of e blocks is written as r with 2^r <= e < 2^(r+1), and the r bits of the difference |
| Restart.MarkerBetween | jpeg-6b/jcphuff.c:347-368 | between two segments stands the next of the eight restart markers FF D0 to FF D7 |
| Restart.DecideIs | jpeg-6b/jdmarker.c:1192-1234 | the action for every marker: codes below SOF0 are passed over, other markers are left, restarts one or two ahead are left, one or two behind passed over, others discarded |
| Restart.RepeatRecovery | jpeg-6b/jdmarker.c:1209-1222 | if segments come again behind restart markers that are one or two behind, they are passed over with one warning and every later segment is decoded into its own interval |
| Restart.FarRestart | jpeg-6b/jdmarker.c:1213-1219 | at a restart marker three to five ahead the marker is dropped and the data behind it fills the expected interval |
| Restart.EarlyEnd | jpeg-6b/jdmarker.c:1203-1229 | at a marker that is not a restart the rest of the scan is decoded without passing it |
| HuffmanSizes.RarerIsLonger | jpeg-6b/jchuff.c:735-776 | a symbol that occurs less often than another, or as often with a larger number, never gets the shorter code |
| OptimalTable.FindShorter | jpeg-6b/jchuff.c:803-805 | the nearest shorter length in use |
| OptimalTable.LimitedRun | jpeg-6b/jchuff.c:789-812 | limiting is a run of steps, each of which shortens two codes of the greatest length and lengthens one other by one bit, one of the longest that are at least two bits shorter |
| OptimalTable.LimitStepIs | jpeg-6b/jchuff.c:806-811 | what one of these steps does to the count of each length |
| OptimalTable.TableCounts | jpeg-6b/jchuff.c:814-820 | the counts of the table are the limited counts of the lengths, less one code of the greatest length in use up to 16 |
| OptimalTable.PseudoLongest | jpeg-6b/jchuff.c:722-776 | the pseudo-symbol, which gives up its code, has one of the longest |
| OptimalTable.SizesKept | jpeg-6b/jchuff.c:814-836 | when no length is over 16, dropping the last code of the longest leaves every real symbol the length that the algorithm gave it |
| ScriptRules.SequentialAccepted | jpeg-6b/jcmaster.c:233-261 | a sequential script is valid exactly when its scans, of one to four components in increasing order, divide up the components |
| ScriptRules.ProgressiveAccepted | jpeg-6b/jcmaster.c:172-232 | a progressive script is valid exactly when every scan is the first to send each of its coefficients or sends the next lower bit, AC data follows DC data, and some DC data comes for every component |
| ScriptRules.DecoderTakes | jpeg-6b/jdphuff.c:100-146 | within the ranges, the decoder takes without complaint exactly the accepted scripts and those that send finished coefficients again |
| ScriptRules.SentAgain | jpeg-6b/jdphuff.c:134-146 | such a script: DC coefficients sent twice with Al = 0, which validate_script refuses |
| ScriptRules.DecoderRules | jpeg-6b/jdphuff.c:100-146 | the parameters that the decoder refuses, and the number of its warnings, coefficient by coefficient |
| EntropyDecoder.StartNeeds | jpeg-6b/jdphuff.c:93-186 | what start_pass_phuff_decoder asks of parameters and tables, in full |
| SimpleProgression.YccIs | jpeg-6b/jcparam.c:574-596 | the ten scans of the custom script |
| SimpleProgression.PlainAt | jpeg-6b/jcparam.c:597-608 | where each scan of the all-purpose script stands, for any number of components |
| Geometry.BlocksCover | jpeg-6b/jcmaster.c:93-123 | the blocks of a component are just enough for its share of the samples, relative to the largest sampling factors |
| Layouts.McuHolds | jpeg-6b/jcmaster.c:336-380 | an MCU holds exactly the blocks of the scan in its cell of the grid, or one block of a single component |
| Layouts.McuOrder | jpeg-6b/jccoefct.c:416-432 | they come by component, then row by row, then from left to right |
| CoefControllers.DummyRepeats | jpeg-6b/jccoefct.c:158-204 | a dummy block has no AC coefficients and the DC value of the block that comes before it in its MCU, so its difference is zero |
| Passes.StatisticsFirst | jpeg-6b/jcmaster.c:431-450 | with optimize_coding, every scan with a Huffman symbol among its tokens gets its statistics exactly once, before its header |
| Passes.NoStatistics | jpeg-6b/jcmaster.c:436-446 | a scan without any gets none, unless it is the first of an ordinary compression; without optimize_coding no scan gets any |
| Passes.FileIs | jpeg-6b/jcmaster.c:451-466 | the file has the frame header, then the header and at once the data of each scan in order |
| HuffTable.LengthCount | jpeg-6b/jchuff.c:209-219 | bits[l] symbols have a code of length l, those from Start(l) on |
| AcRefine.CorrIs | jpeg-6b/jcphuff.c:690-694 | the correction bit of a coefficient that was nonzero before is bit Al of its magnitude |
| EntropyEncoder.UsableIs | jpeg-6b/jcphuff.c:161-182 | a table is numbered 0 to 3, and must be defined and legal unless only statistics are wanted |
| Geometry.FrameIs | jpeg-6b/jcmaster.c:49-92 | sampling factors are 1 to 4 and the image is not empty; the limits of initial_setup on size and component count are not needed |
| Blocks.JcoefIs | jpeg-6b/jdphuff.c:396-402 | a value stored in a coefficient keeps its low 16 bits |
| Restart.SegmentsAre | jpeg-6b/jcphuff.c:392-395 | with a restart interval every segment but the last has that many MCUs, without one there is a single segment |
| Sequential.AnySymbol | jpeg-6b/jdhuff.c:571-594 | on any data a symbol of size 0 other than ZRL ends the block, and a coefficient beyond the last position is stored at the last |

## Left out

- The natural order permutation (`jutils.c`): blocks are kept in zigzag order throughout.
- JWRN_EXTRANEOUS_DATA and discarded_bytes: skipped garbage is not counted.
- BitWriter.Writer.EmitBits: a destination that refuses a byte is not modelled. The progressive encoder does not support it (JERR_CANT_SUSPEND); that encode_mcu_huff can be called again when the destination is full, because it works on copies of its state, is left out.
- BitWriter.Writer.FlushBits: does not model a refusing destination either.
- EntropyEncoder.Encoder.EncodeOneBlock: does not model a refusing destination either.
- EntropyEncoder.Encoder.EncodeSequential: does not model a refusing destination, nor the working copies that make it harmless.
- EntropyDecoder.Decoder.DecodeSequential: stores the coefficients of every component, where decode_mcu decodes and discards those of components that are not needed.
- Arithmetic coding, block smoothing, colour quantisation, fancy upsampling and progress monitors.
- DCT, IDCT and quantisation: straight-line arithmetic with no harder claims; the coefficient controllers start from the quantised blocks.
- File and memory management: data sources, destinations and pools are plain sequences, maps and arrays; virtual arrays are maps from blocks to coefficients.
- The decompressor's output side (decompress_data, decompress_onepass), the row contexts of jdmainct.c and jcprepct.c, and merged upsampling: pixel buffering after and before the coefficients.
- Headers and tables as marker segments (jcmarker.c and the get_ routines of jdmarker.c): the coders start from tables and parameters already read.
- OptimalTable.GenOptimalTable: requires at least one real symbol, at most 254 of them and a total count of at most 10^9, because the scans of the source start from those bounds.
- OptimizedScan.GatherPass: the symbols of a scan number at most 10^9 in each table, the bound from which the source starts its search for the least count; that is a limit on the size of an image.
- OptimizedScan.FinishGather: requires of its statistics what GatherPass proves of those of an accepted scan.
