# srsRAN core pieces in Dafny

This project models and proves properties of three pieces of the srsRAN 5G stack.

- **CU-CP DU processor** (`du_processor.dfy`, module `CuCpDuProcessor`). This is the view the CU-CP keeps of one DU.
  - F1 Setup (section 8.2.3 of 3GPP TS 38.473) installs the DU's served cells.
  - UE creation admits a UE into the UE table, UE context release removes it, and `get_nof_ues` counts the table.
  - The DU-processor implementation is not part of this model. Its contract is the one its unit tests fix, so the model is a class with a cell list and a UE map, and the tests' scenarios are methods on it.
- **NR band plan** (`band_helper.dfy`, module `BandHelper`). These are the constant tables of TS 38.104 (Tables 5.4.2.3-1, 5.3.2-1 and 5.4.2.1-1) and of TS 38.101-1 (Table 5.2-1), and the first-match searches over them.
  - Each C++ loop with an early `return` is a recursive function over a sequence of rows.
  - A lemma characterises each search's result by the row that decides it.
  - Sortedness lemmas justify the searches that stop early.
- **LDPC code-block segmentation** (`ldpc_segmenter.dfy`, module `LdpcSegmenter`). It follows sections 5.2.2, 5.4.2.1 and 7.2.1 of 3GPP TS 38.212.
  - The segmenter is a class. Its `compute_*` methods assign its fields, `Segment` rebuilds its buffer, and `FillSegment` writes an array.
  - Specification functions of the inputs state what the methods compute: `PlanOf`, `TbBuffer` and `ExpectedSegments`.
  - Lemmas prove what the segmentation promises about them:
    - the lifting size fits;
    - every block has room for its information share, its CRC and a non-negative filler count;
    - the segments give the buffer back;
    - the rate-matched lengths add up to the channel's coded bits.
  - CRC calculators are parameters: each carries an arbitrary function for its byte and bit checksums. The CRCs of section 5.1 of TS 38.212 are defined separately, and only to exhibit one finding.

In the C++ code, `segment` is one function. Here it is `Prepare`, which covers lines 136-173, followed by `FillCodeblocks`, which is the loop at lines 175-208. `Prepare` is in turn `LoadTransportBlock` followed by the three `compute_*` methods and two small helpers. Each piece keeps the order of the statements and assigns the same fields.

## Model

| member | source | states |
|---|---|---|
| CuCpDuProcessor.F1SetupVerdict | tests/unittests/cu_cp/du_processor/du_processor_test.cpp:23-82 | F1 Setup succeeds iff the served-cell list is non-empty, has at most the maximum number of cells and every cell carries system information; each failure cause holds exactly in its case |
| CuCpDuProcessor.CellIds | tests/unittests/cu_cp/du_processor/du_processor_test.cpp:23-36 | the cell ids a setup installs are those of the served cells, in order |
| CuCpDuProcessor.FreeIndexExists | tests/unittests/cu_cp/du_processor/du_processor_test.cpp:170-213 | a UE table below capacity has a free index, and a full one has none |
| CuCpDuProcessor.FindFreeIndex | tests/unittests/cu_cp/du_processor/du_processor_test.cpp:228-243 | the index returned is the lowest free one below the capacity; invalid only when all are taken |
| CuCpDuProcessor.DuProcessor.constructor | tests/unittests/cu_cp/du_processor/du_processor_test.cpp:23-36 | a new DU processor has no cells and no UEs |
| CuCpDuProcessor.DuProcessor.NofUes | tests/unittests/cu_cp/du_processor/du_processor_test.cpp:104 | get_nof_ues never exceeds the capacity, and is 0 exactly when the table is empty |
| CuCpDuProcessor.DuProcessor.HandleF1SetupRequest | tests/unittests/cu_cp/du_processor/du_processor_test.cpp:23-82 | the outcome is the verdict; success installs the served cells, failure changes nothing; the UE table is untouched |
| CuCpDuProcessor.DuProcessor.HandleUeCreationRequest | tests/unittests/cu_cp/du_processor/du_processor_test.cpp:88-213 | a valid index is returned iff the RNTI is valid and unused, the cell is installed and the table is below capacity; then the lowest free index gets the new UE, otherwise nothing changes |
| CuCpDuProcessor.DuProcessor.HandleUeContextReleaseCommand | tests/unittests/cu_cp/du_processor/du_processor_test.cpp:228-243 | the UE of the index is removed and no other; the result reports whether the index held a UE, so an absent index is reported as invalid and changes nothing |
| CuCpDuProcessor.F1SetupVerdictExamples | tests/unittests/cu_cp/du_processor/du_processor_test.cpp:23-82 | the tests' valid request is accepted; a missing cell list, a cell without system information and one cell too many are rejected |
| CuCpDuProcessor.SetUpDu | tests/unittests/cu_cp/du_processor/du_processor_test.cpp:88-99 | after the tests' F1 Setup the DU holds the test cell and no UE |
| CuCpDuProcessor.UeCreationScenario | tests/unittests/cu_cp/du_processor/du_processor_test.cpp:88-168 | an unknown cell and RNTI 0 are refused with the count at 0; a valid UE gets index 0 and the count 1; the same RNTI again is refused and the count stays 1 |
| CuCpDuProcessor.FilledUpToSize | tests/unittests/cu_cp/du_processor/du_processor_test.cpp:185-201 | a table filled with RNTIs 1..n has n UEs and RNTI n + 1 free |
| CuCpDuProcessor.FillDu | tests/unittests/cu_cp/du_processor/du_processor_test.cpp:185-201 | creating RNTIs 1..MAX_NOF_UES_PER_DU in a loop admits every one, each at the next index |
| CuCpDuProcessor.MaxUesScenario | tests/unittests/cu_cp/du_processor/du_processor_test.cpp:170-213 | all MAX_NOF_UES_PER_DU creations succeed, the next is refused and the count stays at the maximum |
| CuCpDuProcessor.ReleaseScenario | tests/unittests/cu_cp/du_processor/du_processor_test.cpp:218-243 | the first UE gets index 0, and releasing index 0 finds it and brings the count back to 0 |
| CuCpDuProcessor.ReuseScenario | tests/unittests/cu_cp/du_processor/du_processor_test.cpp:246-297 | on a full table, a release drops the count to the maximum minus one, and a fresh RNTI then takes the freed index 0 and restores the count |
| BandHelper.ScsOrdinal | lib/ran/band_helper.cpp:331-366 | the subcarrier-spacing order the comparisons use; the valid spacings come before invalid |
| BandHelper.BandFromDlArfcnFirstMatch | lib/ran/band_helper.cpp:281-290 | get_band_from_dl_arfcn returns the band of the first row whose DL range holds the ARFCN, and the invalid band when no row does |
| BandHelper.Arfcn386000IsBandN2 | lib/ran/band_helper.cpp:53-60 | ARFCN 386000 lies in both n2 and n25 and the first match, n2, wins |
| BandHelper.Arfcn0IsBandN80 | lib/ran/band_helper.cpp:82 | ARFCN 0 maps to n80, whose DL range is 0..0 |
| BandHelper.BandFromDlArfcnSkip | lib/ran/band_helper.cpp:281-290 | the search passes over rows that do not hold the ARFCN without changing its result |
| BandHelper.DuplexEarlyExitIsLinear | lib/ran/band_helper.cpp:368-385 | on a table sorted by band, get_duplex_mode's early exit at a larger band equals a full linear search |
| BandHelper.NoLaterRowOfSmallerBand | lib/ran/band_helper.cpp:368-385 | past a row of a larger band a sorted table has no row of the band |
| BandHelper.DuplexModeLinearFirstMatch | lib/ran/band_helper.cpp:368-385 | the linear search gives the duplex mode of the band's first row, or INVALID when no row has the band |
| BandHelper.OperatingBandsSorted | lib/ran/band_helper.cpp:97-132 | the operating-band table ascends strictly by band |
| BandHelper.AdjacentBandsSorted | lib/ran/band_helper.cpp:97-132 | bands that ascend row to row ascend between any two rows |
| BandHelper.GetDuplexModeIsLinearSearch | lib/ran/band_helper.cpp:368-385 | get_duplex_mode equals the full search of Table 5.2-1 |
| BandHelper.OperatingBandsFdd | lib/ran/band_helper.cpp:97-132 | a row is FDD exactly when its band is one of the FDD bands |
| BandHelper.OperatingBandsTdd | lib/ran/band_helper.cpp:97-132 | a row is TDD exactly when its band is one of the TDD bands |
| BandHelper.OperatingBandsSul | lib/ran/band_helper.cpp:97-132 | a row is SUL exactly when its band is one of the SUL bands |
| BandHelper.OperatingBandsColumn | lib/ran/band_helper.cpp:97-132 | the band column of the table, row by row |
| BandHelper.OperatingBandsListed | lib/ran/band_helper.cpp:97-132 | every FDD, TDD and SUL band has a row |
| BandHelper.GetDuplexModeByBand | lib/ran/band_helper.cpp:368-385 | get_duplex_mode is FDD, TDD or SUL iff the band is in that set, and INVALID iff it is in none |
| BandHelper.IsPairedSpectrum | lib/ran/band_helper.cpp:387-392 | is_paired_spectrum requires a valid duplex mode; true means FDD, false means TDD or SUL |
| BandHelper.IsPairedSpectrumByBand | lib/ran/band_helper.cpp:387-392 | the spectrum is paired iff the band is FDD; TDD and SUL bands are unpaired |
| BandHelper.UlArfcnFirstBandRow | lib/ran/band_helper.cpp:301-309 | the first row of the band decides the UL ARFCN: a division by zero when its DL step is 0, otherwise the 32-bit offset formula |
| BandHelper.FirstRowOfN80 | lib/ran/band_helper.cpp:82 | row 30 is n80's first row and its DL step is 0 |
| BandHelper.DuplexModeOfN80 | lib/ran/band_helper.cpp:97-132 | n80 is a SUL band |
| BandHelper.UlArfcnOfArfcn0DividesByZero | lib/ran/band_helper.cpp:292-310 | as written, get_ul_arfcn_from_dl_arfcn(0) divides by zero |
| BandHelper.GetUlArfcnFromDlArfcn | lib/ran/band_helper.cpp:292-310 | a TDD band gives the DL ARFCN; an FDD band gives ul_nref_first + ((dl - dl_nref_first) / dl_nref_step) * ul_nref_step on its first row, which holds the DL ARFCN, with steps of 20, no wrap-around and a result on the UL raster; a SUL band or an ARFCN of no band gives 0 |
| BandHelper.BandTableAdjacentRowsOrdered | lib/ran/band_helper.cpp:50-89 | neighbouring rows ascend by band, and a band's second row nests its DL range inside the first's |
| BandHelper.BandTableBandsAscend | lib/ran/band_helper.cpp:50-89 | the ARFCN-range table ascends by band |
| BandHelper.BandTableRowsNested | lib/ran/band_helper.cpp:50-89 | a repeated band's DL range lies inside that of its previous row |
| BandHelper.LaterRowOfBandNested | lib/ran/band_helper.cpp:50-89 | any later row of a band has a DL range inside the earlier row's |
| BandHelper.BandsAscend | lib/ran/band_helper.cpp:50-89 | the band of a row is at most the band of any later row |
| BandHelper.BandTableFddRows | lib/ran/band_helper.cpp:50-89 | every FDD row has DL and UL steps of 20 and ARFCNs below 600000 |
| BandHelper.FddRowFacts | lib/ran/band_helper.cpp:50-89 | the same facts for one FDD row |
| BandHelper.FddModeIsFddBand | lib/ran/band_helper.cpp:368-385 | a band whose duplex mode is FDD is one of the FDD bands |
| BandHelper.FddArfcnRow | lib/ran/band_helper.cpp:281-309 | a DL ARFCN of an FDD band lies in the first row of its band |
| BandHelper.FddRowArithmetic | lib/ran/band_helper.cpp:301-309 | on an FDD row the uint32 computation does not wrap, and its result is on the row's UL raster |
| BandHelper.FirstRowOfBand | lib/ran/band_helper.cpp:301-303 | the row found is the first row of the band, and -1 exactly when no row has the band |
| BandHelper.UlArfcnPastBand | lib/ran/band_helper.cpp:301-309 | a loop with no row of the band left reaches `return 0` |
| BandHelper.UlArfcnFromRowsByFirstRow | lib/ran/band_helper.cpp:301-309 | the loop gives 0 without a row of the band, a division by zero when the band's first row has DL step 0, and that row's 32-bit offset formula otherwise |
| BandHelper.BandTableBandsListed | lib/ran/band_helper.cpp:50-89 | every band of Table 5.4.2.3-1 is FDD, TDD or SUL |
| BandHelper.BandTableSulRows | lib/ran/band_helper.cpp:50-89 | a row has DL step 0 exactly when its band is a SUL band |
| BandHelper.BandTableFddTddRows | lib/ran/band_helper.cpp:50-81 | the rows before n80 belong to FDD and TDD bands |
| BandHelper.LowDlRanges | lib/ran/band_helper.cpp:50-89 | the first 30 rows start their DL ranges at 123400 or above, and the SUL rows have DL range 0..0 |
| BandHelper.FirstRowOfDlBand | lib/ran/band_helper.cpp:281-309 | for an FDD band the band's first row holds the DL ARFCN, has steps of 20 and its 32-bit result is exact and on the UL raster; a SUL band's first row has DL step 0; an ARFCN without a duplex mode has no row of its band |
| BandHelper.GetUlArfcnAgreesWithAsWritten | lib/ran/band_helper.cpp:292-310 | as written, the function divides by zero exactly for SUL bands, and everywhere else the guarded function gives the same value |
| BandHelper.UlArfcnWithoutDuplexMode | lib/ran/band_helper.cpp:301-309 | an ARFCN whose band has no duplex mode, the invalid band included, gets 0 from the `return 0` behind the loop |
| BandHelper.UlArfcnOfUnmatchedArfcn | lib/ran/band_helper.cpp:281-310 | ARFCN 1 lies in no band and gives 0 both as written and guarded |
| BandHelper.UlArfcnOfArfcn0 | lib/ran/band_helper.cpp:292-310 | ARFCN 0, of the SUL band n80, gives 0 once the division is guarded |
| BandHelper.SsbPatternExactMatch | lib/ran/band_helper.cpp:331-347 | on sorted rows get_ssb_pattern returns the case of the row with exactly this band and spacing, and invalid when there is none |
| BandHelper.SsbTableSorted | lib/ran/band_helper.cpp:141-176 | the SSB table ascends by band and, within a band, by spacing |
| BandHelper.AdjacentSsbRowsSorted | lib/ran/band_helper.cpp:141-176 | rows sorted against their neighbours are sorted against all later rows |
| BandHelper.SsbPatternScan | lib/ran/band_helper.cpp:331-347 | past rows that do not stop it the search continues unchanged |
| BandHelper.SsbPatternOfN5 | lib/ran/band_helper.cpp:331-347 | n5 at 30 kHz gives case B |
| BandHelper.SsbPatternOfN77 | lib/ran/band_helper.cpp:331-347 | n77 at 15 kHz gives invalid |
| BandHelper.LowestSsbScsIsMinimal | lib/ran/band_helper.cpp:349-366 | on sorted rows get_lowest_ssb_scs gives a spacing the band lists and no larger than any other it lists; invalid for a band without rows |
| BandHelper.LowestScsHasPatternOn | lib/ran/band_helper.cpp:331-366 | on sorted rows that all name a pattern, the lowest spacing of a band has an SSB pattern |
| BandHelper.SsbTablePatternsValid | lib/ran/band_helper.cpp:141-176 | every SSB row names a valid pattern case |
| BandHelper.LowestSsbScsHasPattern | lib/ran/band_helper.cpp:331-366 | the lowest SSB spacing of any band has a valid pattern |
| BandHelper.LowestSsbScsOfN40 | lib/ran/band_helper.cpp:349-366 | n40 gives 30 kHz |
| BandHelper.LowestSsbScsFirstRow | lib/ran/band_helper.cpp:349-366 | past rows of smaller bands, the band's first row gives the spacing |
| BandHelper.GetNRbsFromBw | lib/ran/band_helper.cpp:446-466 | a nonzero N_RB only comes from FR1 at a spacing of at most 60 kHz |
| BandHelper.NRbsFirstMatch | lib/ran/band_helper.cpp:446-466 | the N_RB found is the entry of the bandwidth's first row, and 0 when no row has the bandwidth |
| BandHelper.TxBwConfigDistinct | lib/ran/band_helper.cpp:214-244 | each bandwidth has one row in Table 5.3.2-1 |
| BandHelper.GetNRbsFromBwTable | lib/ran/band_helper.cpp:446-466 | 0 outside FR1, above 60 kHz or for an unlisted bandwidth; otherwise the table's entry for the bandwidth and spacing |
| BandHelper.NRbsExamples | lib/ran/band_helper.cpp:214-244 | 60 MHz at 15 kHz is N/A (0), 100 MHz at 30 kHz is 273, and 120 kHz gives 0 |
| BandHelper.RasterParamsFirstMatch | lib/ran/band_helper.cpp:247-256 | get_raster_params returns the first range holding the ARFCN, or the empty parameters |
| BandHelper.RasterRangesContiguous | lib/ran/band_helper.cpp:195-205 | the three raster ranges start at 0, meet without gap or overlap and end at 3279165 |
| BandHelper.GetRasterParamsPartition | lib/ran/band_helper.cpp:195-256 | every ARFCN up to 3279165 lies in exactly one range, whose parameters are returned; a larger one gets the empty parameters |
| LdpcSegmenter.BitsPerSymbol | lib/phy/upper/channel_coding/ldpc/ldpc_segmenter_impl.cpp:155 | the modulation order the enum cast yields lies in 1..8 |
| LdpcSegmenter.DivideCeil | lib/phy/upper/channel_coding/ldpc/ldpc_segmenter_impl.cpp:34 | divide_ceil is the least q with q * b >= a |
| LdpcSegmenter.DivideCeilLeast | lib/phy/upper/channel_coding/ldpc/ldpc_segmenter_impl.cpp:34 | any multiple of b reaching a is at least divide_ceil |
| LdpcSegmenter.DivideCeilByFloor | lib/phy/upper/channel_coding/ldpc/ldpc_segmenter_impl.cpp:78-83 | divide_ceil is the floor quotient plus one exactly when there is a remainder |
| LdpcSegmenter.UnpackBits | lib/phy/upper/channel_coding/ldpc/ldpc_segmenter_impl.cpp:150-153 | bit_unpack of a value gives n bits, each 0 or 1 |
| LdpcSegmenter.PackUnpackBits | lib/phy/upper/channel_coding/ldpc/ldpc_segmenter_impl.cpp:150-153 | unpacking a value below 2^n and packing the bits gives the value back |
| LdpcSegmenter.UnpackBytes | lib/phy/upper/channel_coding/ldpc/ldpc_segmenter_impl.cpp:150 | bit_unpack of bytes gives 8 bits per byte, each 0 or 1 |
| LdpcSegmenter.UnpackBytesRoundTrip | lib/phy/upper/channel_coding/ldpc/ldpc_segmenter_impl.cpp:150 | each byte comes back from its 8 unpacked bits |
| LdpcSegmenter.MaxSegmentLength | lib/phy/upper/channel_coding/ldpc/ldpc_segmenter_impl.cpp:137 | K_cb exceeds the 24-bit block CRC |
| LdpcSegmenter.NofSegmentsLeast | lib/phy/upper/channel_coding/ldpc/ldpc_segmenter_impl.cpp:28-37 | C = 1 and B' = B when B <= K_cb; otherwise C > 1 is the least number of blocks of K_cb - 24 bits that carry B; and B' fits in C blocks of K_cb |
| LdpcSegmenter.TbBitsOutSplit | lib/phy/upper/channel_coding/ldpc/ldpc_segmenter_impl.cpp:28-37 | B' is B plus one block CRC per block when there are several |
| LdpcSegmenter.RefLength | lib/phy/upper/channel_coding/ldpc/ldpc_segmenter_impl.cpp:41-52 | K_b is 22 for BG1 and 10, 9, 8 or 6 for BG2 |
| LdpcSegmenter.LiftingSizesAscending | lib/phy/upper/channel_coding/ldpc/ldpc_segmenter_impl.cpp:57 | the 51 lifting sizes ascend strictly and end at 384 |
| LdpcSegmenter.LiftingSizeIsLeastFit | lib/phy/upper/channel_coding/ldpc/ldpc_segmenter_impl.cpp:54-63 | the corrected search gives the least size whose K_b-multiple covers B', and 0 exactly when none does |
| LdpcSegmenter.LiftingSizeAsWrittenIsLeastExceeding | lib/phy/upper/channel_coding/ldpc/ldpc_segmenter_impl.cpp:54-63 | the search as written gives the least size whose multiple strictly exceeds B', and 0 exactly when none does |
| LdpcSegmenter.BaseLength | lib/phy/upper/channel_coding/ldpc/ldpc_segmenter_impl.cpp:66-73 | N_full - M is at least every K_b of its base graph |
| LdpcSegmenter.PlanOf | lib/phy/upper/channel_coding/ldpc/ldpc_segmenter_impl.cpp:136-166 | a segmentation has at least one code block |
| LdpcSegmenter.PlanOfIs | lib/phy/upper/channel_coding/ldpc/ldpc_segmenter_impl.cpp:136-166 | quantities derived step by step as segment derives them are the segmentation of the transport block |
| LdpcSegmenter.MaxInfoBitsDefined | lib/phy/upper/channel_coding/ldpc/ldpc_segmenter_impl.cpp:161-166 | ceil(B' / C) is at least the block CRC length, so max_info_bits does not wrap |
| LdpcSegmenter.LargestLiftingSizeFits | lib/phy/upper/channel_coding/ldpc/ldpc_segmenter_impl.cpp:54-63 | lifting size 384 always covers B' |
| LdpcSegmenter.PlanLiftingSizeFits | lib/phy/upper/channel_coding/ldpc/ldpc_segmenter_impl.cpp:54-63 | the lifting size is a nonzero table entry whose multiple covers B' |
| LdpcSegmenter.PlanSegmentsHoldTbBitsOut | lib/phy/upper/channel_coding/ldpc/ldpc_segmenter_impl.cpp:66-73 | C blocks of the segment length hold B' |
| LdpcSegmenter.PlanOfWellFormed | lib/phy/upper/channel_coding/ldpc/ldpc_segmenter_impl.cpp:157-181 | every segmentation of a non-empty block has a nonzero lifting size and room in each block for its information share and CRC, so the filler count never wraps, and its C shares cover the buffer |
| LdpcSegmenter.PlanWellFormedWhen | lib/phy/upper/channel_coding/ldpc/ldpc_segmenter_impl.cpp:161-181 | blocks holding B' leave room for max_info_bits plus the CRC, and C shares of max_info_bits cover B |
| LdpcSegmenter.InfoStart | lib/phy/upper/channel_coding/ldpc/ldpc_segmenter_impl.cpp:175-188 | input_idx never passes the end of the buffer |
| LdpcSegmenter.InfoStartStep | lib/phy/upper/channel_coding/ldpc/ldpc_segmenter_impl.cpp:179-188 | each segment advances input_idx by at most max_info_bits |
| LdpcSegmenter.InfoStartClosedForm | lib/phy/upper/channel_coding/ldpc/ldpc_segmenter_impl.cpp:175-188 | segment k starts at min(k * max_info_bits, B) |
| LdpcSegmenter.CodeblockCrcBits | lib/phy/upper/channel_coding/ldpc/ldpc_segmenter_impl.cpp:100-105 | the CRC bits appended have the requested length |
| LdpcSegmenter.SumSymbolsSplit | lib/phy/upper/channel_coding/ldpc/ldpc_segmenter_impl.cpp:75-85 | the symbols of the first n segments are floor shares up to the short count and ceiling shares after it |
| LdpcSegmenter.SymbolsShareExactly | lib/phy/upper/channel_coding/ldpc/ldpc_segmenter_impl.cpp:169-173 | C - (S mod C) floor shares and S mod C ceiling shares add up to S |
| LdpcSegmenter.SumRmLengthsScales | lib/phy/upper/channel_coding/ldpc/ldpc_segmenter_impl.cpp:75-85 | the sum of the E_r is the sum of the symbol shares times layers times Q_m |
| LdpcSegmenter.RmLengthsFillChannel | lib/phy/upper/channel_coding/ldpc/ldpc_segmenter_impl.cpp:155-173 | the E_r of the C segments add up to nof_ch_symbols * Q_m, the coded bits available |
| LdpcSegmenter.RmLengthsBalanced | lib/phy/upper/channel_coding/ldpc/ldpc_segmenter_impl.cpp:75-85 | E_r is the floor share for the short segments and the ceiling share for the rest, and two E_r differ by at most layers * Q_m |
| LdpcSegmenter.LiftingSizeAsWrittenFailsOnFullBlock | lib/phy/upper/channel_coding/ldpc/ldpc_segmenter_impl.cpp:54-63 | as written, a 1053-byte block on BG1 (B' = 8448, C = 1) gets lifting size 0 and a segment length too small for its bits; the corrected search gives 384 |
| LdpcSegmenter.LiftingSizeAsWrittenOversizesSmallBlock | lib/phy/upper/channel_coding/ldpc/ldpc_segmenter_impl.cpp:41-63 | as written, a 4-byte block on BG2 gets 9 where section 5.2.2 gives 8 |
| LdpcSegmenter.TbBuffer | lib/phy/upper/channel_coding/ldpc/ldpc_segmenter_impl.cpp:140-153 | the buffer has 8 * len + L bits, with L = 16 up to 3824 payload bits and 24 above |
| LdpcSegmenter.TbBufferAsWritten | lib/phy/upper/channel_coding/ldpc/ldpc_segmenter_impl.cpp:140-153 | the buffer the code builds has the same length |
| LdpcSegmenter.TbBufferRoundTrip | lib/phy/upper/channel_coding/ldpc/ldpc_segmenter_impl.cpp:140-153 | the buffer gives back every payload byte, and its last L bits give back the checksum of the section 7.2.1 calculator |
| LdpcSegmenter.CrcLength | lib/phy/upper/channel_coding/ldpc/ldpc_segmenter_impl.cpp:141-145 | each CRC of section 5.1 of TS 38.212 has 6 to 24 bits |
| LdpcSegmenter.StandardCrc | lib/phy/upper/channel_coding/ldpc/ldpc_segmenter_impl.cpp:17-26 | the section 5.1 calculator has the generator it is built for |
| LdpcSegmenter.CrcOfOne | lib/phy/upper/channel_coding/ldpc/ldpc_segmenter_impl.cpp:151 | the CRC of the byte 0x01 is the generator polynomial |
| LdpcSegmenter.TbCrcAsWrittenDiffers | lib/phy/upper/channel_coding/ldpc/ldpc_segmenter_impl.cpp:141-153 | as written, the buffer of the one-byte block 0x01 differs from the one section 7.2.1 requires |
| LdpcSegmenter.TbBufferChecksumBits | lib/phy/upper/channel_coding/ldpc/ldpc_segmenter_impl.cpp:151-153 | the last L bits of both buffers are the chosen checksum unpacked |
| LdpcSegmenter.InputsValidBounds | lib/phy/upper/channel_coding/ldpc/ldpc_segmenter_impl.cpp:111-127 | valid inputs keep B within max_tbs and divide the channel symbols evenly among the layers |
| LdpcSegmenter.InfoLength | lib/phy/upper/channel_coding/ldpc/ldpc_segmenter_impl.cpp:179 | nof_info_bits is at most max_info_bits and advances input_idx to the next segment's start |
| LdpcSegmenter.InfoPart | lib/phy/upper/channel_coding/ldpc/ldpc_segmenter_impl.cpp:184 | the information slice has nof_info_bits bits |
| LdpcSegmenter.FillerLength | lib/phy/upper/channel_coding/ldpc/ldpc_segmenter_impl.cpp:181 | information, CRC and filler bits add up to the segment length |
| LdpcSegmenter.SegmentData | lib/phy/upper/channel_coding/ldpc/ldpc_segmenter_impl.cpp:177-187 | every segment has exactly segment_length bits |
| LdpcSegmenter.ExpectedSegments | lib/phy/upper/channel_coding/ldpc/ldpc_segmenter_impl.cpp:176 | segment produces exactly C segments |
| LdpcSegmenter.ExpectedSegmentParts | lib/phy/upper/channel_coding/ldpc/ldpc_segmenter_impl.cpp:177-207 | a segment's data is its information bits, their CRC and the fillers; its description holds the base graph, lifting size, rv, modulation, N_ref, full length (3 or 5 times the segment length), filler count and E_r |
| LdpcSegmenter.ExpectedSegmentLayout | lib/phy/upper/channel_coding/ldpc/ldpc_segmenter_impl.cpp:87-109 | a segment has the segment length, starts with its information bits, carries their CRC24B right after, and ends in filler bits |
| LdpcSegmenter.DesegmentPrefix | lib/phy/upper/channel_coding/ldpc/ldpc_segmenter_impl.cpp:175-188 | the information bits of the first n segments, joined, are the buffer up to segment n's start |
| LdpcSegmenter.SegmentsReassemble | lib/phy/upper/channel_coding/ldpc/ldpc_segmenter_impl.cpp:175-208 | stripping CRC and filler bits from the segments and joining them gives back the whole buffer |
| LdpcSegmenter.SumOfRmLengthsPrefix | lib/phy/upper/channel_coding/ldpc/ldpc_segmenter_impl.cpp:205 | the E_r of the first n described segments add up to the first n rate-matched lengths |
| LdpcSegmenter.SegmentsFillChannel | lib/phy/upper/channel_coding/ldpc/ldpc_segmenter_impl.cpp:155-205 | the E_r of the described segments add up to nof_ch_symbols * Q_m |
| LdpcSegmenter.FillSegment | lib/phy/upper/channel_coding/ldpc/ldpc_segmenter_impl.cpp:87-109 | fill_segment writes the information bits, then their CRC if any, then filler bits to the end of the array |
| LdpcSegmenter.Segmenter.constructor | lib/phy/upper/channel_coding/ldpc/ldpc_segmenter_impl.cpp:17-26 | the segmenter keeps the three calculators, whose generators must be CRC16, CRC24A and CRC24B |
| LdpcSegmenter.Segmenter.ComputeNofSegments | lib/phy/upper/channel_coding/ldpc/ldpc_segmenter_impl.cpp:28-37 | sets C and B' as section 5.2.2 defines them |
| LdpcSegmenter.Segmenter.ComputeLiftingSize | lib/phy/upper/channel_coding/ldpc/ldpc_segmenter_impl.cpp:39-64 | sets the lifting size to the first table entry whose K_b-multiple covers B' |
| LdpcSegmenter.Segmenter.ComputeSegmentLength | lib/phy/upper/channel_coding/ldpc/ldpc_segmenter_impl.cpp:66-73 | sets the segment length to (N_full - M) times the lifting size |
| LdpcSegmenter.Segmenter.LoadTransportBlock | lib/phy/upper/channel_coding/ldpc/ldpc_segmenter_impl.cpp:136-155 | sets the base graph, K_cb, B, the buffer of payload and TB CRC bits, and the available coded bits |
| LdpcSegmenter.Segmenter.ComputeInfoShare | lib/phy/upper/channel_coding/ldpc/ldpc_segmenter_impl.cpp:161-166 | the block CRC is 24 bits only when C > 1, and max_info_bits plus the CRC is ceil(B' / C) |
| LdpcSegmenter.Segmenter.ComputeSymbolShares | lib/phy/upper/channel_coding/ldpc/ldpc_segmenter_impl.cpp:168-173 | sets the symbols per layer and the number of short segments |
| LdpcSegmenter.Segmenter.Prepare | lib/phy/upper/channel_coding/ldpc/ldpc_segmenter_impl.cpp:136-173 | the segmenter's fields are the segmentation of the block, which is well formed, and the buffer is the payload followed by its TB CRC |
| LdpcSegmenter.Segmenter.FillCodeblock | lib/phy/upper/channel_coding/ldpc/ldpc_segmenter_impl.cpp:177-207 | one pass of the loop produces segment k as specified and moves input_idx to segment k + 1's start |
| LdpcSegmenter.Segmenter.FillCodeblocks | lib/phy/upper/channel_coding/ldpc/ldpc_segmenter_impl.cpp:175-208 | the loop produces exactly the C specified segments, in order |
| LdpcSegmenter.Segmenter.Segment | lib/phy/upper/channel_coding/ldpc/ldpc_segmenter_impl.cpp:129-209 | segment appends the specified segments of the block to the described list and leaves the segmenter holding the well-formed segmentation and the buffer |

## Left out

- The floating-point functions of `lib/ran/band_helper.cpp` are not modelled: `nr_arfcn_to_freq`, `freq_to_nr_arfcn`, the point-A and centre-frequency conversions, the `double` overload of `get_raster_params` and `is_valid_raster_param`. They compute in double precision and truncate with casts.
- The raster parameters keep the table's frequencies in MHz and kHz as integers. Every entry of Table 5.4.2.1-1 is a whole number in those units.
- The band enumeration's `invalid` value is taken to be 0. Its header is not part of this model, and no table row carries it.
- `lib/ran/band_helper.cpp` asserts a valid duplex mode in `is_paired_spectrum`. Here that assertion is the function's precondition.
- The DU-processor implementation is not part of this model. Its behaviour is the contract its unit tests fix.
- The F1AP and ASN.1 messages of those tests are reduced to the served-cell list with each cell's id and system-information flag. The outcome is reduced to response or failure with a cause.
- Test loggers and PDU notifiers are not modelled.
- `MAX_NOF_UES_PER_DU`, the maximum number of cells and `MIN_CRNTI` are parameters. RNTI 0 is the invalid RNTI.
- CuCpDuProcessor.DuProcessor.HandleF1SetupRequest: the tests only check the outcome's type. Installing the served cells on success is the behaviour the UE tests rely on.
- CRC computation (`crc_calculator::calculate_byte` and `calculate_bit`) is a parameter of each calculator: any function of the input bytes or bits. The calculators of section 5.1 of TS 38.212 appear only in the TB CRC finding.
- `srsvec::bit_unpack` is modelled as most-significant-bit-first unpacking of the low n bits.
- The LDPC constants `all_lifting_sizes`, `max_BG1_block_length`, `max_BG2_block_length`, `BG1_N_full`, `BG1_M`, `BG2_N_full`, `BG2_M`, `filler_bit` and `max_tbs` come from headers that are not part of this model. The constants take the values of TS 38.212. `filler_bit` and `max_tbs` are constructor parameters.
- The modulation enumeration's values are taken to be the modulation orders 1, 2, 4, 6 and 8, which is what the source's cast to `unsigned` yields.
- The capacity `MAX_NOF_SEGMENTS` of the output vector is not modelled. The output is an unbounded sequence.
- The constructor's `srsran_assert`s and `check_inputs` are preconditions. A failed assertion aborts in the source.
- LdpcSegmenter.Segmenter.Segment: `nof_available_coded_bits` is stored but not used by `segment`. The model states its value and nothing else.
- The segmenter's integers are unbounded. `ComputeInfoShare` and the filler count are proved not to go below zero, and the products stay far below 2^32 for any block within `max_tbs`, but 32-bit wrap-around is not modelled.
- LdpcSegmenter.Segmenter.ComputeLiftingSize uses `>=`, the comparison of section 5.2.2, rather than the source's `>`. The as-written search is `LiftingSizeAsWrittenFrom`; see Findings.
- LdpcSegmenter.Segmenter.LoadTransportBlock, LdpcSegmenter.Segmenter.Prepare and LdpcSegmenter.Segmenter.Segment use the CRC16 calculator for payloads of up to 3824 bits, as section 7.2.1 requires, rather than the source's CRC24A; the as-written buffer is `TbBufferAsWritten`; see Findings.
- BandHelper.GetUlArfcnFromDlArfcn returns 0 for a band without a DL raster (the SUL bands), where the source divides by zero; the as-written function is `GetUlArfcnFromDlArfcnAsWritten`; see Findings.

## Findings

| source | as written | input that shows it | evidently intended | confidence | as-written member | corrected member |
|---|---|---|---|---|---|---|
| lib/ran/band_helper.cpp:82, 301-309 | `get_ul_arfcn_from_dl_arfcn` divides by the row's `dl_nref_step`. The first row of n80 has `dl_nref_step` 0, and DL ARFCN 0 maps to n80 | DL ARFCN 0 | a band without a DL raster, such as a SUL band, gets no UL ARFCN (0), as for an unmatched ARFCN | not executed | BandHelper.UlArfcnOfArfcn0DividesByZero | BandHelper.GetUlArfcnFromDlArfcn |
| lib/phy/upper/channel_coding/ldpc/ldpc_segmenter_impl.cpp:58 | the lifting size is the first with `ls * C * K_b > B'` | a 1053-byte block on BG1: B' = 8448 = 22 * 384, so no size qualifies and the lifting size is 0 (the assert at line 63 fires); a 4-byte block on BG2 gets 9 instead of 8 | the least Z_c with K_b * Z_c >= K', as section 5.2.2 of TS 38.212 specifies | not executed | LdpcSegmenter.LiftingSizeAsWrittenFailsOnFullBlock | LdpcSegmenter.PlanLiftingSizeFits |
| lib/phy/upper/channel_coding/ldpc/ldpc_segmenter_impl.cpp:141-146 | `tb_crc` is a reference bound to the CRC24A calculator. `tb_crc = *crc_set.crc16` assigns through the reference instead of rebinding it, and that assignment of the interface copies no state. The CRC24A checksum is then used for every block, truncated to 16 bits for short ones | the one-byte block 0x01: the low 16 bits of its CRC24A differ from its CRC16 | CRC16 for payloads of up to 3824 bits, as section 7.2.1 of TS 38.212 specifies | not executed | LdpcSegmenter.TbCrcAsWrittenDiffers | LdpcSegmenter.TbBufferRoundTrip |
