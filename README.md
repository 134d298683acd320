# QR frame engine, modelled in Dafny

This project models the frame engine of a TypeScript QR-code library.
`generateFrame` takes a string and an error-correction level and does the following:

1. It picks the smallest QR version whose block table holds the string.
2. It draws the function patterns (finders, alignment patterns, timing lines, version information) into a `width * width` module matrix.
3. It reserves those modules in a triangular "mask" bit array, which is indexed by `getMaskBit`.
4. It turns the string into a byte-mode data stream with a length header and `0xEC 0x11` padding.
5. It appends Reed-Solomon ECC to every block, using shift-register division by the generator polynomial.
6. It interleaves the blocks.
7. It packs the codewords bit by bit into the free modules along the two-column zig-zag.
8. It scores the eight mask patterns with the ISO/IEC 18004 penalty rules: runs, 2x2 blocks, the finder-like 1:1:3:1:1 pattern, and dark/light balance.
9. It applies the best pattern and writes the 15-bit format information twice.

The repository holds two copies of the engine. The model covers both through `Tables.Variant`:

- `Newer` is `src/Frame.ts`:
  - it accepts an optional mask override;
  - it writes the mask patterns as formulas;
  - its run-length array is a `Uint8Array(width)`.
- `Exported` is `src/qr/Frame.ts`, the copy `src/index.ts` exports:
  - it always searches all eight masks;
  - it has one hand-unrolled loop per mask pattern;
  - its loops for patterns 1 and 5 invert other cells than the standard does (see Findings). The model follows these loops as written, and proves a corrected copy separately;
  - its run-length array is a growing `number[]`.

The module matrix and the reserved-bit array are `array<bool>`. Both are `Uint8Array`s holding only 0 and 1 in the source. Byte buffers are `array<byte>`, where `byte` is `0..255`. Every `Uint8Array` store is written out as truncation modulo 256.

Four constant tables are not part of this model: the Galois-field exponent and log tables, `ErrorCorrection.BLOCKS`, `ErrorCorrection.FINAL_FORMAT` and `Version.BLOCK`. They are passed as one `Tables` value.

- `WellFormed` states the lengths and ranges the index arithmetic needs.
- `LogAntilog` states that the exponent and log tables are inverse on the non-zero field elements.

The alignment-step table (`src/constants/alignment.ts`) is transcribed as `ALIGNMENT_BLOCK`.

Every imperative operation is a `method` over arrays. Each is proved against a ghost specification function of the old contents. The properties the engine relies on are proved about those functions as lemmas:

- the interleaving is a permutation;
- masking is an involution and never touches reserved modules;
- the run encoding round-trips;
- the mask search picks the first minimum;
- the format bits read back.

## Model

| member | source | states |
|---|---|---|
| Tables.Width | src/Frame.ts:855 | the side of a version-1..40 symbol is odd and between 21 and 177 |
| Reserved.Idx | src/Frame.ts:129-131 | a grid cell's buffer index lies in the matrix, and `% width` and `/ width` give back its column and row |
| Reserved.CellOfIndex | src/Frame.ts:129-131 | every buffer index is the index of the cell `(i % width, i / width)`, which lies in the grid |
| Reserved.GetMaskBit | src/Frame.ts:73-79 | the reserved bit of (x, y) is the triangular number of the larger coordinate plus the smaller one |
| Reserved.RowStart | src/Frame.ts:76-78 | `(y + y*y) >> 1` is the triangular number of y, where row y of the triangle starts |
| Reserved.MaskBitSymmetric | src/qr/Frame.ts:58-69 | a cell and its transpose share one reserved bit |
| Reserved.MaskBitInjective | src/Frame.ts:73-79 | two cells share a reserved bit if and only if they are equal or transposed |
| Reserved.MaskBitRoundTrip | src/Frame.ts:73-79 | decoding the bit of an upper-triangle cell gives back the cell |
| Reserved.MaskBitCoordsRoundTrip | src/Frame.ts:73-79 | every bit index is the bit of exactly the cell it decodes to |
| Reserved.MaskBitInRange | src/Frame.ts:860 | every grid cell's bit lies inside the `((width*(width+1))+1) >> 1` byte mask array |
| Reserved.MaskSizeIsTri | src/Frame.ts:860 | the mask array's size is the triangular number of width |
| Reserved.Darken | src/Frame.ts:866 | one module is set dark, and every other module is unchanged |
| Reserved.IsMasked | src/Frame.ts:158-162 | a cell is reserved when its bit lies inside the array and is set; a cell and its transpose give the same answer |
| Reserved.IsMaskedIndex | src/qr/Frame.ts:161-165 | the buffer index of an in-grid cell answers exactly as isMasked does for that cell |
| Reserved.SetMask | src/Frame.ts:119-121 | afterwards exactly the old reserved cells, the cell and its transpose are reserved |
| Reserved.SetMaskIndex | src/Frame.ts:129-131 | reserves the cell at buffer index i and its transpose, nothing else |
| Reserved.SyncMask | src/Frame.ts:142-148 | a cell is reserved afterwards if and only if it was before, or it or its transpose is dark |
| Versions.CalculateMaxLength | src/Frame.ts:244-246 | the data capacity is neccBlock1 short blocks of dataBlock bytes plus neccBlock2 long blocks of dataBlock + 1 |
| Versions.ModN | src/qr/Frame.ts:84-86 | JavaScript `%`: the result is congruent to x mod 255, and keeps x's sign with magnitude below 255 |
| Versions.Lookup | src/Frame.ts:178-184 | a table row exists exactly when the (level, version) index is in range; version 0's negative index gives none |
| Versions.SearchFrom | src/Frame.ts:178-189 | the version returned is the first from the start that accepts the length, or 40 |
| Versions.GenerateVersionsAndBlocks | src/Frame.ts:170-192 | the version is in 1..40 and is the table row for it; it accepts the length or is 40, and no smaller version accepts |
| Versions.SelectedWellFormed | src/Frame.ts:170-192 | the chosen row has at least one short block, non-empty blocks and room for the header |
| Layout.InsertFinder | src/Frame.ts:656-679 | darkens exactly the 7x7 ring and 3x3 core, and reserves the light ring between them |
| Layout.FinderParts | src/Frame.ts:656-679 | the finder shape equals the union of the cells the three loops write |
| Layout.DrawFinderRing | src/Frame.ts:659-664 | the first loop darkens exactly the outer ring |
| Layout.ReserveFinderLight | src/Frame.ts:666-671 | the second loop reserves exactly the light ring and its transpose |
| Layout.DrawFinderCore | src/Frame.ts:673-678 | the third loop darkens exactly the 3x3 core |
| Layout.InsertFinders | src/Frame.ts:687-696 | draws the top-left, top-right and bottom-left finders and nothing else |
| Layout.AddAlignment | src/Frame.ts:194-210 | darkens the centre and the 5x5 ring, and reserves the light 3x3 ring |
| Layout.AlignParts | src/Frame.ts:194-210 | the alignment shape equals the union of the cells the loops write |
| Layout.DrawAlignRing | src/Frame.ts:197-202 | darkens exactly the 5x5 ring |
| Layout.ReserveAlignLight | src/Frame.ts:204-209 | reserves exactly the light ring around the centre |
| Layout.AlignmentStepLarge | src/Frame.ts:610 | every alignment step for versions 2..40 is at least 11 |
| Layout.AddAlignmentStep | src/Frame.ts:617 | adding one centre extends the drawn set by that centre's pattern |
| Layout.DrawAlignmentRow | src/Frame.ts:613-624 | the inner while loop draws exactly the centres of the row that lie right of `i - 3` |
| Layout.DrawEdgeCentres | src/Frame.ts:630-633 | after stepping up a row, the two edge centres join the drawn set |
| Layout.NextRow | src/Frame.ts:626-633 | the centres drawn so far, plus the next row and its edge centres, are those up to that row |
| Layout.LastRow | src/Frame.ts:626-628 | when the loop breaks, the drawn set is exactly every alignment centre |
| Layout.InsertAlignments | src/Frame.ts:608-636 | version 1 changes nothing; otherwise exactly the alignment patterns at the centres are drawn and reserved |
| Layout.InsertTimingGap | src/Frame.ts:703-715 | reserves exactly the separator strips around the three finders |
| Layout.ReverseMask | src/Frame.ts:817-830 | reserves exactly the two format-information areas |
| Layout.InsertTimingRowAndColumn | src/Frame.ts:723-733 | darkens the even timing cells of row and column 6, and reserves the odd ones |
| Layout.ReserveTimingPair | src/Frame.ts:725-727 | one odd step reserves the two timing cells |
| Layout.DarkenTimingPair | src/Frame.ts:729-730 | one even step darkens the two timing cells |
| Layout.VersionBitIndex | src/Frame.ts:745-749 | the bit number of a version-block cell is in 0..17 |
| Layout.VersionCellOfBit | src/Frame.ts:747-751 | bit j lies in column `j / 3` and row `width - 11 + j % 3` of the lower block |
| Layout.DrawVersionBit | src/Frame.ts:749-755 | one bit darkens or reserves its cell in both version blocks |
| Layout.InsertVersion | src/Frame.ts:738-759 | versions up to 6 change nothing; otherwise both 6x3 blocks show the version number and `Version.BLOCK` word, one bits dark and zero bits reserved |
| Bitstream.StoredLength | src/Frame.ts:434-440 | an input that fits keeps its length; a too-long one is cut to exactly maxLength - 2 bytes, one less from version 10, so that header and data fill maxLength exactly |
| Bitstream.Straddle | src/Frame.ts:452-453 | a shifted byte holds the low nibble of one input byte above the high nibble of the next |
| Bitstream.PadEnd | src/Frame.ts:475-480 | padding adds pairs and stops at maxLength or one past it |
| Bitstream.Encoded | src/Frame.ts:423-483 | the stream is the header and data, then padding up to maxLength, one byte further when the pairs overshoot |
| Bitstream.ShiftIn | src/Frame.ts:443-468 | the right-to-left shift loop leaves every data byte split across two nibbles, one nibble later |
| Bitstream.OrStraddle | src/Frame.ts:452-453 | `(bit >> 4)` or-ed with the next byte's `255 & (bit << 4)` is the straddling byte |
| Bitstream.CountShift | src/Frame.ts:456 | `255 & (length << 4)` keeps the low nibble of the length, shifted up |
| Bitstream.OrCount | src/Frame.ts:470 | or-ing the count nibble into the first data nibble loses no bits |
| Bitstream.WriteHeader | src/Frame.ts:456-458 | the header writes put mode 4 and the length in front of the shifted data |
| Bitstream.Pad | src/Frame.ts:474-480 | the loop writes alternating 0xEC, 0x11 from the start up to PadEnd |
| Bitstream.ConvertBitStream | src/Frame.ts:423-483 | the array starts with the encoded stream; past it, each byte is the stored input byte or its old value |
| Bitstream.EncodedLayout | src/Frame.ts:474-482 | the array the header, shift and pad loops write begins with the stream `Encoded` specifies, and every byte past the stream keeps the byte the array held before those loops |
| Bitstream.HeaderRoundTrip | src/Frame.ts:456-471 | the first nibble of the stream is the byte mode 4, and the next 8 or 16 bits read back the stored length |
| Bitstream.ModeNibble | src/Frame.ts:471 | or-ing 0x40 with a nibble n gives mode nibble 4 and n in the low nibble |
| Bitstream.DataRoundTrip | src/Frame.ts:449-468 | each stored data byte reads back from the two stream bytes it straddles |
| ReedSolomon.Generator | src/Frame.ts:297-316 | the generator of degree n has n + 1 coefficients |
| ReedSolomon.GeneratorMonic | src/Frame.ts:297-316 | the generator's leading coefficient is 1 |
| ReedSolomon.GeneratorConstant | src/Frame.ts:307 | the generator's constant term is alpha to the sum 0 + 1 + ... + (n - 1), so it is non-zero |
| ReedSolomon.MulAlpha | src/Frame.ts:304 | `EXPONENT[(LOG[c] + i) % 255]` is c times alpha^i, and 0 stays 0 |
| ReedSolomon.GeneratorStep | src/Frame.ts:302-305 | multiplying by (x + alpha^i) sets each coefficient to the one below xor this one times alpha^i |
| ReedSolomon.CoefficientUpdate | src/Frame.ts:303-304 | the source's conditional update of coefficient j is the textbook product coefficient |
| ReedSolomon.ConstantUpdate | src/Frame.ts:307 | the update of coefficient 0 is the new constant term |
| ReedSolomon.UpdateCoefficient | src/Frame.ts:303-304 | one inner step changes only coefficient j, to the next generator's coefficient |
| ReedSolomon.MultiplyByLinear | src/Frame.ts:302-305 | the inner loop turns the partial generator for i into the one for i + 1 |
| ReedSolomon.UpdateConstant | src/Frame.ts:307 | sets coefficient 0 of the next generator, nothing else |
| ReedSolomon.BuildGenerator | src/Frame.ts:299-308 | the array holds the low coefficients of the generator of its length |
| ReedSolomon.GeneratorOne | src/Frame.ts:299 | the all-ones start is the degree-1 generator (x + 1) |
| ReedSolomon.TakeLogs | src/Frame.ts:311-313 | each coefficient is replaced by its log; the write one past the end is dropped |
| ReedSolomon.CalculatePolynomial | src/Frame.ts:297-316 | returns the logs of the generator's eccBlock low coefficients |
| ReedSolomon.RegisterStepIsDivision | src/Frame.ts:219-233 | when every generator coefficient is non-zero (every generator log differs from 255), one register step is one step of polynomial long division: shift and subtract feedback times the generator |
| ReedSolomon.ScaleIsMul | src/Frame.ts:225 | adding logs and exponentiating multiplies in GF(256) |
| ReedSolomon.RemainderOfZeros | src/Frame.ts:212-234 | an all-zero block has all-zero ECC |
| ReedSolomon.RemainderAppend | src/Frame.ts:219-234 | dividing a+b equals dividing b starting from the remainder of a |
| ReedSolomon.ShiftRegister | src/Frame.ts:220-233 | one outer iteration changes only the ECC slot, to the next register state |
| ReedSolomon.FeedbackShift | src/Frame.ts:222-226 | the feedback branch shifts the register down, xoring in the scaled generator |
| ReedSolomon.PlainShift | src/Frame.ts:227-230 | the zero-feedback branch shifts the register down one byte |
| ReedSolomon.AppendData | src/Frame.ts:212-235 | the ECC slot becomes the remainder of the block's data, and nothing else changes |
| ReedSolomon.BlocksPartition | src/Frame.ts:252-264 | the data cursor has a closed form, and after all blocks it stands at CalculateMaxLength |
| ReedSolomon.BlockBelow | src/Frame.ts:252-264 | a block ends before any later block starts |
| ReedSolomon.EccBelow | src/Frame.ts:252-264 | ECC slots of different blocks do not overlap |
| ReedSolomon.EccStartClosed | src/Frame.ts:250-256 | block b's ECC starts at maxLength + b * eccBlock |
| ReedSolomon.CursorStep | src/Frame.ts:255-263 | advancing the cursors moves to the next block's data and ECC, past the current ones |
| ReedSolomon.AppendBlock | src/Frame.ts:253-260 | one appendData call extends the finished blocks by one and keeps the earlier ones |
| ReedSolomon.AppendEccToData | src/Frame.ts:248-265 | every block's ECC slot holds the remainder of its data, and the data bytes are unchanged |
| Interleave.MaxLengthAgrees | src/Frame.ts:575 | the interleaver's data length is CalculateMaxLength |
| Interleave.OutPosRoundTrip | src/Frame.ts:572-598 | every codeword slot has one output position, and that position names the slot |
| Interleave.SlotAtRoundTrip | src/Frame.ts:572-598 | every output position below the total names a slot written there |
| Interleave.BufPosRoundTrip | src/Frame.ts:572-598 | every slot's buffer position is in range and names the slot back |
| Interleave.SlotOfRoundTrip | src/Frame.ts:572-598 | every buffer position below the total is some slot's position |
| Interleave.SourceInjective | src/Frame.ts:572-598 | no buffer byte is copied to two output positions |
| Interleave.SourceSurjective | src/Frame.ts:572-598 | every buffer byte is copied somewhere: the interleaving is a permutation |
| Interleave.InterleavedAt | src/Frame.ts:572-598 | once written, the output position of a slot holds the buffer byte of that slot |
| Interleave.DataRound | src/Frame.ts:578-584 | data round i writes byte i of every short block, then of every long block |
| Interleave.ExtraBytes | src/Frame.ts:587-589 | then the last byte of every long block |
| Interleave.EccRound | src/Frame.ts:591-595 | ECC round i writes ECC byte i of every block |
| Interleave.Put | src/Frame.ts:579 | one copy writes the next output position from its slot's buffer position |
| Interleave.InterleaveBlocks | src/Frame.ts:572-598 | the first Total bytes are the interleaving of the buffer, and the bytes beyond are unchanged |
| Placement.Step | src/Frame.ts:780-811 | on a grid wider than 9, one cursor step stays within the rows and either moves along its strip or to a strip further left, so the zig-zag ends |
| Placement.Skip | src/Frame.ts:780-812 | skipping reserved cells ends within the rows |
| Placement.SkipFree | src/Frame.ts:812 | the do-while stops on a free cell, and a free cell is kept |
| Placement.PlacedOnFreeCell | src/Frame.ts:774-812 | after every placed bit, the cursor stands on an unreserved cell |
| Placement.PlacedCells | src/Frame.ts:774-778 | packing only darkens modules, exactly the cells where the cursor stood for a one bit |
| Placement.PackSkipsTimingColumn | src/Frame.ts:790-807 | the cursor never stands on the timing column x = 6 |
| Placement.NextFree | src/Frame.ts:780-812 | the do-while loop computes one step, then skips reserved cells |
| Placement.PlaceBit | src/Frame.ts:775-812 | one inner iteration plots one bit and moves to the next free cell |
| Placement.BitsOfByte | src/Frame.ts:774-775 | the j-th `0x80 & bit` test reads bit j of the byte from the top |
| Placement.MostSignificantFirst | src/Frame.ts:772-775 | stream bit 8i + j is the bit of byte i worth 128 >> j |
| Placement.PackByte | src/Frame.ts:772-813 | one outer iteration packs the eight bits of one byte |
| Placement.Pack | src/Frame.ts:761-815 | the matrix is the layout with all `8 * length` codeword bits placed along the zig-zag |
| Masking.MaskPattern | src/Frame.ts:272-280 | mask numbers from 8 up invert nothing; pattern 5 inverts exactly the cells whose coordinates multiply to a multiple of 6 |
| Masking.FlowerAsWritten | src/qr/Frame.ts:351 | the bitwise test holds where x*y is even and both counters are 0 or 1 with one of them 0, or where x and y are odd and both counters are 1 |
| Masking.LegacyPattern | src/qr/Frame.ts:260-396 | as written, case 1 inverts the complement of ISO pattern 1, and on odd widths every case other than 1 and 5 inverts exactly the ISO cells |
| Masking.IndexParity | src/qr/Frame.ts:268-272 | on an odd width, buffer-index parity is (x + y) parity |
| Masking.ProductParity | src/qr/Frame.ts:369 | `x & y & 1` is x*y mod 2 |
| Masking.ProductThirds | src/qr/Frame.ts:369 | x*y mod 3 is zero exactly when a coordinate is, and it is odd exactly when the counters r3x = r3y are non-zero |
| Masking.ProductPattern | src/qr/Frame.ts:340-394 | the counter tests of cases 5 (as written or corrected), 6 and 7 decide the pattern of the cell |
| Masking.DiagonalTest | src/qr/Frame.ts:308-318 | the case-3 counter is zero exactly on the `(x + y) % 3 == 0` diagonals |
| Masking.RectanglesTest | src/qr/Frame.ts:326-333 | the case-4 flag is zero exactly on the ISO 3x2 rectangle pattern |
| Masking.CorrectedPattern | src/qr/Frame.ts:260-396 | on odd widths, the exported patterns, with cases 1 and 5 corrected, are the ISO/IEC 18004 formulas of src/Frame.ts:273-280 |
| Masking.LegacyRowsInverted | src/qr/Frame.ts:275-287 | with mask 1, the exported copy as written gives every unreserved cell the opposite value of the ISO masking |
| Masking.LegacyFlowerDiffers | src/qr/Frame.ts:340-357 | characterises exactly the cells where case 5 as written differs from ISO pattern 5 |
| Masking.LegacyFlowerCounterexample | src/qr/Frame.ts:351 | at width 21, case 5 as written skips (0, 2), which ISO inverts (the counter negation is wrong for 2), and inverts (1, 1), which ISO does not (the outer `^ 1` negates the whole sum) |
| Masking.MaskedCell | src/Frame.ts:282-284 | a masked cell is the old cell xor (pattern and not reserved) |
| Masking.MaskedInvolution | src/Frame.ts:270-287 | masking twice with the same pattern restores the matrix |
| Masking.MaskedKeepsReserved | src/Frame.ts:282 | reserved modules are never changed by a mask |
| Masking.VariantsAgree | src/qr/Frame.ts:260-396 | on odd widths, the exported copy masks every matrix as the newer copy does for every mask but 1 and 5, and for all eight once 1 and 5 are corrected |
| Masking.CorrectionKeeps | src/qr/Frame.ts:260-396 | correcting cases 1 and 5 leaves the masking of every other mask number unchanged |
| Masking.ApplyMask | src/Frame.ts:270-287 | the matrix becomes the old matrix masked with the ISO pattern; other mask numbers invert nothing |
| Masking.ApplyMaskExported | src/qr/Frame.ts:260-396 | the switch gives the old matrix masked with the exported patterns as written: case 1 inverts the odd rows, case 5 uses the bitwise test of line 351 |
| Masking.ApplyMaskCorrected | src/qr/Frame.ts:260-396 | the switch with cases 1 and 5 corrected masks with the corrected patterns, and on odd widths exactly as the ISO formulas of src/Frame.ts:270-287 do |
| Masking.MaskChecker | src/qr/Frame.ts:262-274 | case 0 masks with even buffer-index parity |
| Masking.MaskRows | src/qr/Frame.ts:275-287 | case 1, as written, masks the odd rows |
| Masking.MaskRowsCorrected | src/qr/Frame.ts:275-287 | case 1, corrected, masks the even rows |
| Masking.MaskColumns | src/qr/Frame.ts:288-300 | case 2 masks every third column |
| Masking.MaskDiagonal | src/qr/Frame.ts:301-324 | case 3 masks the `(x + y) % 3 == 0` diagonals |
| Masking.MaskRectangles | src/qr/Frame.ts:325-339 | case 4 masks the alternating 3x2 rectangles |
| Masking.MaskProducts | src/qr/Frame.ts:340-394 | cases 5, 6 and 7 mask their product patterns, with case 5's test as written, or corrected when asked for |
| Badness.LongRun | src/Frame.ts:91-93 | a run scores positively exactly when it is defined and at least 5 long |
| Badness.BadnessLocal | src/Frame.ts:87-111 | getBadness reads only entries 0..length, so arrays that agree there score the same |
| Badness.LongRunsZero | src/Frame.ts:90-94 | no long-run penalty if and only if no run among 0..length reaches 5 |
| Badness.Runs | src/Frame.ts:352-368 | a line of n cells gives 1..n+1 run entries, with a possibly empty leading light run |
| Badness.RunsRoundTrip | src/Frame.ts:352-368 | expanding the runs with alternating colours gives back the line |
| Badness.RunsPositive | src/Frame.ts:360-364 | every run after the first is at least 1 long |
| Badness.FullRunsAreSingles | src/Frame.ts:360-364 | a line with n + 1 run entries is all single-cell runs |
| Badness.LineCapacity | src/Frame.ts:326 | a run array of width entries, which drops the write at index width, scores every line as width + 1 entries do |
| Badness.BalanceCountsDark | src/Frame.ts:367 | the running `bw` is twice the dark count minus the cell count |
| Badness.RowsBalanceTotal | src/Frame.ts:352-368 | summing bw row by row gives the whole matrix's balance |
| Badness.StepsBounds | src/Frame.ts:377-385 | the loop's count is the number of whole `width*width` steps strictly below ten times the absolute balance |
| Badness.ScoreVariantsAgree | src/qr/Frame.ts:419-503 | both copies' checkBadness give the same score for every matrix |
| Badness.ScoreNonNegative | src/Frame.ts:85 | the score is never negative; 0 is the best |
| Badness.GetBadness | src/Frame.ts:87-111 | returns N1 + (run - 5) for every run of at least 5, plus N3 per finder-like 1:1:3:1:1 run group |
| Badness.ScanCell | src/Frame.ts:358-366 | one cell extends the last run or opens a new one of length 1 |
| Badness.ScanLine | src/Frame.ts:352-369 | the inner loop records the runs of the line and its balance |
| Badness.BlockRow | src/Frame.ts:332-345 | one row adds N2 for every same-coloured 2x2 block starting there |
| Badness.SameColourBlocks | src/Frame.ts:330-346 | the first loop scores N2 per same-coloured 2x2 block |
| Badness.ImbalanceSteps | src/Frame.ts:382-385 | the while loop counts the `width*width` steps below big |
| Badness.ImbalancePenalty | src/Frame.ts:373-387 | the balance penalty is N4 per 5% step, ten times the absolute balance against the area |
| Badness.ScoreLine | src/Frame.ts:352-371 | one row or column adds its run score |
| Badness.RowRuns | src/Frame.ts:351-371 | all rows add their run scores, and bw is the whole balance |
| Badness.ColumnRuns | src/Frame.ts:389-408 | all columns add their run scores |
| Badness.CheckBadness | src/Frame.ts:324-411 | returns the block, row-run, balance and column-run penalties of the matrix |
| Finish.SearchFindsFirstMinimum | src/Frame.ts:510-529 | the best score is at most 30000 and at most every score tried; below 30000 it is the first index with the minimum |
| Finish.SelectedMaskIsBest | src/Frame.ts:499-534 | without an override, when any mask scores below 30000, the chosen mask scores least and no earlier one ties |
| Finish.FormatSets | src/Frame.ts:543-567 | writing the format word only darkens modules, exactly the cells of its one bits |
| Finish.FormatCellsDistinct | src/Frame.ts:543-567 | the 30 format cells lie in the grid and are pairwise distinct |
| Finish.FormatRoundTrip | src/Frame.ts:540-567 | on a light format area, both copies of bit i read back bit i of the word |
| Finish.PlaceFormat | src/Frame.ts:543-567 | the two loops write the format word into the matrix |
| Finish.PutLowBit | src/Frame.ts:544-553 | one low-byte step writes bit i to both copies |
| Finish.PutHighBit | src/Frame.ts:557-566 | one high-byte step writes bit 8 + i to both copies |
| Finish.Copy | src/Frame.ts:495 | `new Uint8Array(buffer)` is a fresh array with the same contents |
| Finish.ApplyMaskOf | src/Frame.ts:512 | the variant's applyMask masks with that copy's patterns: the ISO formulas for the newer copy, the loops as written for the exported one |
| Finish.TryMask | src/Frame.ts:512-514 | one search pass masks the matrix and scores it with checkBadness |
| Finish.SearchMask | src/Frame.ts:499-534 | the chosen bit is the search result over all eight scores, and the matrix is masked with it |
| Finish.SelectMask | src/Frame.ts:496-538 | the override is used when given; otherwise the search result is used; the matrix is masked with the choice |
| Finish.Finish | src/Frame.ts:493-570 | the result is the matrix masked with the selected pattern and given its format word |
| Frame.Row | src/Frame.ts:849-852 | the chosen table row has the sizes every well-formed row has |
| Frame.DrawFinders | src/Frame.ts:857-866 | fresh arrays of the right sizes in which the finders and the dark module at (8, width - 8) are dark, and the finders' light rings are reserved |
| Frame.DrawTiming | src/Frame.ts:868-871 | adds exactly the dark timing cells, and reserves exactly the separators, both format areas and the light timing cells |
| Frame.DrawFunctionPatterns | src/Frame.ts:857-872 | every fixed dark cell is dark and reserved, every fixed light cell is reserved, and every dark cell is reserved |
| Frame.EccSizeCovers | src/Frame.ts:859 | the ecc array holds every data and ECC codeword, with dataBlock bytes to spare |
| Frame.CodeBlocks | src/Frame.ts:874-876 | the array begins with the encoded stream, and every block's ECC follows the data |
| Frame.EncodeCodewords | src/Frame.ts:874-877 | the codewords are the interleaving of the coded blocks of the encoded input |
| Frame.GenerateFrame | src/Frame.ts:843-886 | the version is the first that holds the input; the frame is the layout with the codewords packed, then masked and given its format word |
| Frame.Assemble | src/Frame.ts:857-879 | for a chosen block row: fixed cells are drawn, codewords are encoded, and the frame is the packed layout, masked and given its format word |

## Left out

The following are not part of this model:

- `src/Frame.ts` and `src/qr/Frame.ts` read `options` and supply defaults. The `ErrorCorrection.LEVELS` name-to-number map and the `defaultFrameOptions` merge are not modelled; `GenerateFrame` takes the numeric level directly.
- The contents of the Galois `EXPONENT`/`LOG` tables, `ErrorCorrection.BLOCKS`, `ErrorCorrection.FINAL_FORMAT` and `Version.BLOCK` are not part of this model. They are parameters constrained by `WellFormed` and `LogAntilog`.
- Mask override:
  - A `chosenMask` of `undefined` or `null` is `None`: the eight masks are searched.
  - A `chosenMask` of `NaN` is modelled as `None`, which is exact only when some mask scores below 30000. `NaN` searches like `None`, but `bit` starts as `NaN` (src/Frame.ts:496) instead of 0. When no mask scores below 30000, `bit` stays `NaN`: `applyMask(NaN)` inverts nothing, and `FINAL_FORMAT[NaN + ...]` is `undefined`, so every format bit is 0. `None` then applies mask 0 and writes mask 0's format word.
  - The exported copy takes no override, so `GenerateFrame` requires `None` for it.
- `value.length` and `charCodeAt` count UTF-16 code units. The model takes the code units as given.
- Rendering (`src/qr/renderer/`, `src/qr/utils.ts`, the demo) is outside the frame engine.
- Run-length array:
  - A run never exceeds `width <= 177`, so a `Uint8Array` run count cannot wrap. No wrap-around is modelled.
  - The exported copy allocates one `number[]` in `generateFrame` (src/qr/Frame.ts:899) and shares it across all eight mask trials, every row and every column; it grows on demand. The model allocates one array of `width + 1` entries per `CheckBadness` call, shared by all rows and columns of that call. `Badness.BadnessLocal` shows that only entries the current line has written are read, so the scores are the same.
- `big += big << 2` is 32-bit in JavaScript but cannot overflow for widths up to 177. It is modelled as unbounded `10 * |bw|`.
- Out-of-range typed-array reads are `undefined` and writes are dropped. This is modelled where it occurs: `polynomial[eccBlock]`, the register's `stringBuffer[j + 1]`, and the run array's entry `width`.
- Placement.PlacedOnFreeCell: the cursor is proved to stay within the rows and off reserved cells. It is not proved to stay inside the matrix's columns after the last codeword bit; a write outside the matrix is dropped as in the source.
- ReedSolomon.AppendData: `Remainder` is the GF(256) long-division remainder by the generator only when no generator coefficient is zero (`RegisterStepIsDivision` requires every generator log to differ from 255). That is a property of the concrete `EXPONENT`/`LOG` tables, which are parameters here, so the model does not prove it.
- Badness.CheckBadness: the penalties are summed in the order the loops add them. The proof regroups them, with the same total.
- The `ecc` array's trailing `dataBlock` slack bytes are kept, as in the source. `pack`'s `stringBuffer` is passed as a sequence, because `pack` only reads it.

## Findings

| source | as written | input that shows it | evidently intended | confidence | as-written member | corrected member |
|---|---|---|---|---|---|---|
| src/qr/Frame.ts:278 | mask case 1 inverts the rows where `y % 2` is 1 | cell (0, 0): ISO pattern 1 inverts it, the exported copy does not | invert the rows with `y % 2 == 0`, as ISO/IEC 18004 pattern 1 and src/Frame.ts:274 do | not executed | Masking.LegacyRowsInverted | Masking.MaskRowsCorrected |
| src/qr/Frame.ts:351 | mask case 5 has two defects. First, it writes the logical negation of the mod-3 counters as `r3x ^ 1` and `r3y ^ 1`, which is wrong for a counter of 2. Second, `+` binds tighter than `^`, so the outer `^ 1` negates the sum `(x & y & 1) + ...` instead of the counter term, where `(x & y & 1) + !(!r3x or !r3y)` is meant | cell (0, 2) at width 21 shows the first defect: ISO inverts it, the exported copy does not. Cell (1, 1) shows the second: both counters are 1, where `1 ^ 1` is the right negation, yet the sum 1 is negated and the exported copy inverts a cell ISO leaves alone | invert where `x*y % 2 + x*y % 3 == 0`, as ISO/IEC 18004 pattern 5 and src/Frame.ts:278 do | not executed | Masking.LegacyFlowerCounterexample | Masking.ApplyMaskCorrected |
