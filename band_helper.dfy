/**
 NR band-plan helpers for frequency range 1: constant tables from TS 38.104
 (Tables 5.4.2.3-1, 5.3.2-1 and 5.4.2.1-1) and TS 38.101-1 (Table 5.2-1), and
 the first-match searches over them.

 Every search of the C++ code is a loop over a constant array with an early
 `return`; here each one is a recursive function over a sequence of rows, and a
 lemma characterises its result by the index of the row that decides it.
 */
module BandHelper {

  /// Underlying value of the band enumeration: the band number (n78 is 78).
  /// The enumeration's `invalid` value is taken to be 0; no table row carries it.
  type Band = nat
  const InvalidBand: Band := 0

  const U32Modulus: int := 0x1_0000_0000
  /// A `uint32_t` value.
  type U32 = x: int | 0 <= x < U32Modulus

  datatype DeltaFreqRaster = Default | KHz15 | KHz30 | KHz60 | KHz100 | KHz120

  datatype DuplexMode = FDD | TDD | SUL | INVALID

  datatype SubcarrierSpacing = KHz15 | KHz30 | KHz60 | KHz120 | KHz240 | Invalid

  datatype SsbPatternCase = A | B | C | D | E | Invalid

  datatype FrequencyRange = FR1 | FR2

  /// Position of a subcarrier spacing in its enumeration, which orders the comparisons of the source.
  function ScsOrdinal(scs: SubcarrierSpacing): (k: nat)
    ensures k <= 5
    ensures scs != SubcarrierSpacing.Invalid ==> k < 5
  {
    match scs
    case KHz15 => 0
    case KHz30 => 1
    case KHz60 => 2
    case KHz120 => 3
    case KHz240 => 4
    case Invalid => 5
  }

  // ---------------------------------------------------------------------------
  // Table 5.4.2.3-1 of TS 38.104: operating bands with DL and UL NR-ARFCN ranges
  // ---------------------------------------------------------------------------

  datatype NrBand = NrBand(band: Band, deltaFRaster: DeltaFreqRaster,
                           ulNrefFirst: nat, ulNrefStep: nat, ulNrefLast: nat,
                           dlNrefFirst: nat, dlNrefStep: nat, dlNrefLast: nat)

  /// The 36 FDD, TDD and SDL rows; band n41, n77, n78 and n79 have one row per raster, n2 is a subset of n25.
  const NrBandTableFr1: seq<NrBand> := [
    NrBand(1,  DeltaFreqRaster.KHz100, 384000, 20, 396000, 422000, 20, 434000),
    NrBand(2,  DeltaFreqRaster.KHz100, 370000, 20, 382000, 386000, 20, 398000),
    NrBand(3,  DeltaFreqRaster.KHz100, 342000, 20, 357000, 361000, 20, 376000),
    NrBand(5,  DeltaFreqRaster.KHz100, 164800, 20, 169800, 173800, 20, 178800),
    NrBand(7,  DeltaFreqRaster.KHz100, 500000, 20, 514000, 524000, 20, 538000),
    NrBand(8,  DeltaFreqRaster.KHz100, 176000, 20, 183000, 185000, 20, 192000),
    NrBand(12, DeltaFreqRaster.KHz100, 139800, 20, 143200, 145800, 20, 149200),
    NrBand(20, DeltaFreqRaster.KHz100, 166400, 20, 172400, 158200, 20, 164200),
    NrBand(25, DeltaFreqRaster.KHz100, 370000, 20, 383000, 386000, 20, 399000),
    NrBand(28, DeltaFreqRaster.KHz100, 140600, 20, 149600, 151600, 20, 160600),
    NrBand(34, DeltaFreqRaster.KHz100, 402000, 20, 405000, 402000, 20, 405000),
    NrBand(38, DeltaFreqRaster.KHz100, 514000, 20, 524000, 514000, 20, 524000),
    NrBand(39, DeltaFreqRaster.KHz100, 376000, 20, 384000, 376000, 20, 384000),
    NrBand(40, DeltaFreqRaster.KHz100, 460000, 20, 480000, 460000, 20, 480000),
    NrBand(41, DeltaFreqRaster.KHz15,  499200,  3, 537999, 499200,  3, 537999),
    NrBand(41, DeltaFreqRaster.KHz30,  499200,  6, 537996, 499200,  6, 537996),
    NrBand(50, DeltaFreqRaster.KHz100, 286400, 20, 303400, 286400, 20, 303400),
    NrBand(51, DeltaFreqRaster.KHz100, 285400, 20, 286400, 285400, 20, 286400),
    NrBand(66, DeltaFreqRaster.KHz100, 342000, 20, 356000, 422000, 20, 440000),
    NrBand(70, DeltaFreqRaster.KHz100, 339000, 20, 342000, 399000, 20, 404000),
    NrBand(71, DeltaFreqRaster.KHz100, 132600, 20, 139600, 123400, 20, 130400),
    NrBand(74, DeltaFreqRaster.KHz100, 285400, 20, 294000, 295000, 20, 303600),
    NrBand(75, DeltaFreqRaster.KHz100,      0,  0,      0, 286400, 20, 303400),
    NrBand(76, DeltaFreqRaster.KHz100,      0,  0,      0, 285400, 20, 286400),
    NrBand(77, DeltaFreqRaster.KHz15,  620000,  1, 680000, 620000,  1, 680000),
    NrBand(77, DeltaFreqRaster.KHz30,  620000,  2, 680000, 620000,  2, 680000),
    NrBand(78, DeltaFreqRaster.KHz15,  620000,  1, 653333, 620000,  1, 653333),
    NrBand(78, DeltaFreqRaster.KHz30,  620000,  2, 653332, 620000,  2, 653332),
    NrBand(79, DeltaFreqRaster.KHz15,  693334,  2, 733333, 693334,  2, 733333),
    NrBand(79, DeltaFreqRaster.KHz30,  693334,  2, 733332, 693334,  2, 733332),
    NrBand(80, DeltaFreqRaster.KHz100, 342000, 20, 357000,      0,  0,      0),
    NrBand(81, DeltaFreqRaster.KHz100, 176000, 20, 183000,      0,  0,      0),
    NrBand(82, DeltaFreqRaster.KHz100, 166400, 20, 172400,      0,  0,      0),
    NrBand(83, DeltaFreqRaster.KHz100, 140600, 20, 149600,      0,  0,      0),
    NrBand(84, DeltaFreqRaster.KHz100, 384000, 20, 396000,      0,  0,      0),
    NrBand(86, DeltaFreqRaster.KHz100, 342000, 20, 356000,      0,  0,      0)
  ]

  predicate InDlRange(row: NrBand, arfcn: nat) {
    row.dlNrefFirst <= arfcn <= row.dlNrefLast
  }

  /// Row i is the first whose DL range holds the ARFCN.
  predicate IsFirstDlMatch(rows: seq<NrBand>, arfcn: nat, i: int) {
    0 <= i < |rows| && InDlRange(rows[i], arfcn) &&
    forall j :: 0 <= j < i ==> !InDlRange(rows[j], arfcn)
  }

  /// The loop of get_band_from_dl_arfcn, from row k on.
  function BandFromDlArfcnFrom(rows: seq<NrBand>, arfcn: nat, k: nat): Band
    decreases |rows| - k
  {
    if k >= |rows| then InvalidBand
    else if InDlRange(rows[k], arfcn) then rows[k].band
    else BandFromDlArfcnFrom(rows, arfcn, k + 1)
  }

  function GetBandFromDlArfcn(arfcn: U32): Band {
    BandFromDlArfcnFrom(NrBandTableFr1, arfcn, 0)
  }

  /// From row k on, the band found is that of the first row whose DL range holds the
  /// ARFCN, and the invalid band when there is no such row; `i` is that row, or -1.
  lemma {:induction false} BandFromDlArfcnFirstMatch(rows: seq<NrBand>, arfcn: nat, k: nat) returns (i: int)
    requires k <= |rows|
    decreases |rows| - k
    ensures i == -1 || k <= i < |rows|
    ensures i == -1 ==> (forall j :: k <= j < |rows| ==> !InDlRange(rows[j], arfcn))
                        && BandFromDlArfcnFrom(rows, arfcn, k) == InvalidBand
    ensures i >= 0 ==> InDlRange(rows[i], arfcn) && (forall j :: k <= j < i ==> !InDlRange(rows[j], arfcn))
                       && BandFromDlArfcnFrom(rows, arfcn, k) == rows[i].band
  {
    if k == |rows| {
      i := -1;
    } else if InDlRange(rows[k], arfcn) {
      i := k;
    } else {
      i := BandFromDlArfcnFirstMatch(rows, arfcn, k + 1);
    }
  }

  /// Bands n2 and n25 share DL ARFCN 386000; n2 is listed first and wins.
  lemma Arfcn386000IsBandN2()
    ensures GetBandFromDlArfcn(386000) == 2
  {
    var i := BandFromDlArfcnFirstMatch(NrBandTableFr1, 386000, 0);
    assert InDlRange(NrBandTableFr1[1], 386000);
  }

  /// The DL range of the supplementary-uplink band n80 is 0..0, so ARFCN 0 is mapped to n80.
  lemma Arfcn0IsBandN80()
    ensures GetBandFromDlArfcn(0) == 80
  {
    LowDlRanges();
    BandFromDlArfcnSkip(NrBandTableFr1, 0, 0, 30);
  }

  /// Rows that do not hold the ARFCN are passed over.
  lemma {:induction false} BandFromDlArfcnSkip(rows: seq<NrBand>, arfcn: nat, k: nat, m: nat)
    requires k <= m <= |rows|
    requires forall j :: k <= j < m ==> !InDlRange(rows[j], arfcn)
    decreases m - k
    ensures BandFromDlArfcnFrom(rows, arfcn, k) == BandFromDlArfcnFrom(rows, arfcn, m)
  {
    if k < m {
      BandFromDlArfcnSkip(rows, arfcn, k + 1, m);
    }
  }

  /// The DL ranges of the first 30 rows start at 123400 or above; the SUL rows have the DL range 0..0.
  lemma LowDlRanges()
    ensures forall j :: 0 <= j < 30 ==> NrBandTableFr1[j].dlNrefFirst >= 123400
    ensures forall j :: 30 <= j < |NrBandTableFr1| ==> NrBandTableFr1[j].dlNrefFirst == 0 == NrBandTableFr1[j].dlNrefLast
  {
  }

  // ---------------------------------------------------------------------------
  // Table 5.2-1 of TS 38.101-1: duplex mode per band
  // ---------------------------------------------------------------------------

  datatype NrOperatingBand = NrOperatingBand(band: Band, duplex: DuplexMode)

  const NrOperatingBandsFr1: seq<NrOperatingBand> := [
    NrOperatingBand(1,  FDD), NrOperatingBand(2,  FDD), NrOperatingBand(3,  FDD),
    NrOperatingBand(5,  FDD), NrOperatingBand(7,  FDD), NrOperatingBand(8,  FDD),
    NrOperatingBand(12, FDD), NrOperatingBand(20, FDD), NrOperatingBand(25, FDD),
    NrOperatingBand(28, FDD), NrOperatingBand(34, TDD), NrOperatingBand(38, TDD),
    NrOperatingBand(39, TDD), NrOperatingBand(40, TDD), NrOperatingBand(41, TDD),
    NrOperatingBand(50, TDD), NrOperatingBand(51, TDD), NrOperatingBand(66, FDD),
    NrOperatingBand(70, FDD), NrOperatingBand(71, FDD), NrOperatingBand(74, FDD),
    NrOperatingBand(75, TDD), NrOperatingBand(76, TDD), NrOperatingBand(77, TDD),
    NrOperatingBand(78, TDD), NrOperatingBand(79, TDD), NrOperatingBand(80, SUL),
    NrOperatingBand(81, SUL), NrOperatingBand(82, SUL), NrOperatingBand(83, SUL),
    NrOperatingBand(84, SUL), NrOperatingBand(86, SUL)
  ]

  predicate SortedOperatingBands(rows: seq<NrOperatingBand>) {
    forall j, k :: 0 <= j < k < |rows| ==> rows[j].band <= rows[k].band
  }

  /// The loop of get_duplex_mode from row k on: it stops at the first row of a larger band.
  function DuplexModeFrom(rows: seq<NrOperatingBand>, band: Band, k: nat): DuplexMode
    decreases |rows| - k
  {
    if k >= |rows| then INVALID
    else if rows[k].band == band then rows[k].duplex
    else if rows[k].band > band then INVALID
    else DuplexModeFrom(rows, band, k + 1)
  }

  /// Reference search without the early exit: the duplex mode of the first row of the band.
  function DuplexModeLinear(rows: seq<NrOperatingBand>, band: Band, k: nat): DuplexMode
    decreases |rows| - k
  {
    if k >= |rows| then INVALID
    else if rows[k].band == band then rows[k].duplex
    else DuplexModeLinear(rows, band, k + 1)
  }

  function GetDuplexMode(band: Band): DuplexMode {
    DuplexModeFrom(NrOperatingBandsFr1, band, 0)
  }

  /// On a table sorted by band, stopping at the first larger band loses nothing.
  lemma {:induction false} DuplexEarlyExitIsLinear(rows: seq<NrOperatingBand>, band: Band, k: nat)
    requires SortedOperatingBands(rows)
    decreases |rows| - k
    ensures DuplexModeFrom(rows, band, k) == DuplexModeLinear(rows, band, k)
  {
    if k < |rows| && rows[k].band != band {
      if rows[k].band > band {
        NoLaterRowOfSmallerBand(rows, band, k, k);
      } else {
        DuplexEarlyExitIsLinear(rows, band, k + 1);
      }
    }
  }

  /// Past a row of a larger band, a sorted table holds no row of the band.
  lemma {:induction false} NoLaterRowOfSmallerBand(rows: seq<NrOperatingBand>, band: Band, m: nat, k: nat)
    requires SortedOperatingBands(rows)
    requires m <= k && m < |rows| && rows[m].band > band
    decreases |rows| - k
    ensures DuplexModeLinear(rows, band, k) == INVALID
  {
    if k < |rows| {
      NoLaterRowOfSmallerBand(rows, band, m, k + 1);
    }
  }

  /// The reference search yields the duplex mode of the first row of the band, or INVALID when no row has it.
  lemma {:induction false} DuplexModeLinearFirstMatch(rows: seq<NrOperatingBand>, band: Band, k: nat) returns (i: int)
    requires k <= |rows|
    decreases |rows| - k
    ensures i == -1 || k <= i < |rows|
    ensures i == -1 ==> (forall j :: k <= j < |rows| ==> rows[j].band != band) && DuplexModeLinear(rows, band, k) == INVALID
    ensures i >= 0 ==> rows[i].band == band && (forall j :: k <= j < i ==> rows[j].band != band)
                       && DuplexModeLinear(rows, band, k) == rows[i].duplex
  {
    if k == |rows| {
      i := -1;
    } else if rows[k].band == band {
      i := k;
    } else {
      i := DuplexModeLinearFirstMatch(rows, band, k + 1);
    }
  }

  lemma OperatingBandsSorted()
    ensures SortedOperatingBands(NrOperatingBandsFr1)
  {
    var t := NrOperatingBandsFr1;
    assert forall m :: 0 < m < |t| ==> t[m - 1].band < t[m].band;
    AdjacentBandsSorted(t, 0);
  }

  /// Rows whose bands ascend from each row to the next are sorted: row k against every later row.
  lemma {:induction false} AdjacentBandsSorted(rows: seq<NrOperatingBand>, k: nat)
    requires forall m :: 0 < m < |rows| ==> rows[m - 1].band < rows[m].band
    requires k <= |rows|
    decreases |rows| - k
    ensures forall j, m :: k <= j < m < |rows| ==> rows[j].band <= rows[m].band
  {
    if k < |rows| {
      AdjacentBandsSorted(rows, k + 1);
      forall m | k < m < |rows| ensures rows[k].band <= rows[m].band {
        assert rows[k].band < rows[k + 1].band;
      }
    }
  }

  /// get_duplex_mode agrees with a full search of Table 5.2-1.
  lemma GetDuplexModeIsLinearSearch(band: Band)
    ensures GetDuplexMode(band) == DuplexModeLinear(NrOperatingBandsFr1, band, 0)
  {
    OperatingBandsSorted();
    DuplexEarlyExitIsLinear(NrOperatingBandsFr1, band, 0);
  }

  /// The bands Table 5.2-1 lists as FDD.
  const FddBands: set<Band> := {1, 2, 3, 5, 7, 8, 12, 20, 25, 28, 66, 70, 71, 74}
  /// The bands Table 5.2-1 lists as TDD.
  const TddBands: set<Band> := {34, 38, 39, 40, 41, 50, 51, 75, 76, 77, 78, 79}
  /// The supplementary-uplink bands.
  const SulBands: set<Band> := {80, 81, 82, 83, 84, 86}

  /// Row by row, the duplex mode of the table agrees with the three sets of bands.
  lemma OperatingBandsFdd()
    ensures forall j :: 0 <= j < |NrOperatingBandsFr1| ==>
      (NrOperatingBandsFr1[j].duplex == FDD <==> NrOperatingBandsFr1[j].band in FddBands)
  {
  }

  lemma OperatingBandsTdd()
    ensures forall j :: 0 <= j < |NrOperatingBandsFr1| ==>
      (NrOperatingBandsFr1[j].duplex == TDD <==> NrOperatingBandsFr1[j].band in TddBands)
  {
  }

  lemma OperatingBandsSul()
    ensures forall j :: 0 <= j < |NrOperatingBandsFr1| ==>
      (NrOperatingBandsFr1[j].duplex == SUL <==> NrOperatingBandsFr1[j].band in SulBands)
  {
  }

  /// The band column of the table.
  const OperatingBandColumn: seq<Band> := [1, 2, 3, 5, 7, 8, 12, 20, 25, 28, 34, 38, 39, 40, 41, 50, 51, 66, 70, 71, 74,
                                          75, 76, 77, 78, 79, 80, 81, 82, 83, 84, 86]

  lemma OperatingBandsColumn()
    ensures |NrOperatingBandsFr1| == |OperatingBandColumn|
    ensures forall j :: 0 <= j < |NrOperatingBandsFr1| ==> NrOperatingBandsFr1[j].band == OperatingBandColumn[j]
  {
  }

  /// Each band of the three sets has a row in the table.
  lemma OperatingBandsListed(band: Band)
    requires band in FddBands + TddBands + SulBands
    ensures exists j :: 0 <= j < |NrOperatingBandsFr1| && NrOperatingBandsFr1[j].band == band
  {
    OperatingBandsColumn();
    assert band in OperatingBandColumn;
    var j :| 0 <= j < |OperatingBandColumn| && OperatingBandColumn[j] == band;
    assert NrOperatingBandsFr1[j].band == band;
  }

  /// The duplex mode of every band, as the table lists it; INVALID for a band it does not list.
  lemma GetDuplexModeByBand(band: Band)
    ensures GetDuplexMode(band) == FDD <==> band in FddBands
    ensures GetDuplexMode(band) == TDD <==> band in TddBands
    ensures GetDuplexMode(band) == SUL <==> band in SulBands
    ensures GetDuplexMode(band) == INVALID <==> band !in FddBands + TddBands + SulBands
  {
    GetDuplexModeIsLinearSearch(band);
    OperatingBandsFdd();
    OperatingBandsTdd();
    OperatingBandsSul();
    var i := DuplexModeLinearFirstMatch(NrOperatingBandsFr1, band, 0);
    if band in FddBands + TddBands + SulBands {
      OperatingBandsListed(band);
    }
  }

  /// is_paired_spectrum: the source asserts the band has a duplex mode, and the spectrum is paired exactly for FDD.
  function IsPairedSpectrum(band: Band): (paired: bool)
    requires GetDuplexMode(band) != INVALID
    ensures paired ==> GetDuplexMode(band) == FDD
    ensures !paired ==> GetDuplexMode(band) in {TDD, SUL}
  {
    GetDuplexMode(band) == FDD
  }

  /// Paired spectrum is exactly the set of FDD bands; TDD and SUL bands are unpaired.
  lemma IsPairedSpectrumByBand(band: Band)
    requires GetDuplexMode(band) != INVALID
    ensures IsPairedSpectrum(band) <==> band in FddBands
    ensures band in TddBands + SulBands ==> !IsPairedSpectrum(band)
  {
    GetDuplexModeByBand(band);
  }

  // ---------------------------------------------------------------------------
  // UL NR-ARFCN derived from the DL NR-ARFCN
  // ---------------------------------------------------------------------------

  /// What the C++ code does: a UL ARFCN, or an unsigned division by zero, which is undefined behaviour.
  datatype UlArfcnOutcome = UlArfcn(arfcn: U32) | DivisionByZero

  /// The second loop of get_ul_arfcn_from_dl_arfcn from row k on: the first row of `band` gives
  /// the offset computation, in 32-bit unsigned arithmetic; no row of the band gives 0.
  function UlArfcnFromRows(rows: seq<NrBand>, band: Band, dlArfcn: U32, k: nat): UlArfcnOutcome
    decreases |rows| - k
  {
    if k >= |rows| then UlArfcn(0)
    else if rows[k].band == band then
      if rows[k].dlNrefStep == 0 then DivisionByZero else UlArfcn(UlArfcnOfRow(rows[k], dlArfcn))
    else UlArfcnFromRows(rows, band, dlArfcn, k + 1)
  }

  /// The offset computation of the loop on a row with a DL raster, in 32-bit unsigned arithmetic.
  function UlArfcnOfRow(row: NrBand, dlArfcn: U32): U32
    requires row.dlNrefStep != 0
  {
    var offset := ((dlArfcn - row.dlNrefFirst) % U32Modulus) / row.dlNrefStep;
    (row.ulNrefFirst + offset * row.ulNrefStep) % U32Modulus
  }

  /// get_ul_arfcn_from_dl_arfcn exactly as the C++ code computes it.
  function GetUlArfcnFromDlArfcnAsWritten(dlArfcn: U32): UlArfcnOutcome {
    var band := GetBandFromDlArfcn(dlArfcn);
    if GetDuplexMode(band) == TDD then UlArfcn(dlArfcn)
    else UlArfcnFromRows(NrBandTableFr1, band, dlArfcn, 0)
  }

  /// No row in [k, i) belongs to the band.
  predicate NoRowOfBandBetween(rows: seq<NrBand>, band: Band, k: nat, i: nat)
    requires i <= |rows|
  {
    forall j :: k <= j < i ==> rows[j].band != band
  }

  /// The first row of `band` from row k on, or -1 when there is none.
  function FirstRowOfBand(rows: seq<NrBand>, band: Band, k: nat): (i: int)
    decreases |rows| - k
    ensures i == -1 || k <= i < |rows|
    ensures i == -1 ==> forall j :: k <= j < |rows| ==> rows[j].band != band
    ensures i >= 0 ==> rows[i].band == band && NoRowOfBandBetween(rows, band, k, i)
  {
    if k >= |rows| then -1
    else if rows[k].band == band then k
    else FirstRowOfBand(rows, band, k + 1)
  }

  /// Past the last row of the band the loop falls through to `return 0`.
  lemma {:induction false} UlArfcnPastBand(rows: seq<NrBand>, band: Band, dlArfcn: U32, k: nat)
    requires forall j :: k <= j < |rows| ==> rows[j].band != band
    decreases |rows| - k
    ensures UlArfcnFromRows(rows, band, dlArfcn, k) == UlArfcn(0)
  {
    if k < |rows| {
      UlArfcnPastBand(rows, band, dlArfcn, k + 1);
    }
  }

  /// The loop of get_ul_arfcn_from_dl_arfcn is decided by the first row of the band: 0 without
  /// such a row, a division by zero when that row has no DL raster, its offset computation otherwise.
  lemma UlArfcnFromRowsByFirstRow(rows: seq<NrBand>, band: Band, dlArfcn: U32)
    ensures var i := FirstRowOfBand(rows, band, 0);
            (i == -1 ==> UlArfcnFromRows(rows, band, dlArfcn, 0) == UlArfcn(0)) &&
            (i >= 0 && rows[i].dlNrefStep == 0 ==> UlArfcnFromRows(rows, band, dlArfcn, 0) == DivisionByZero) &&
            (i >= 0 && rows[i].dlNrefStep != 0 ==>
               UlArfcnFromRows(rows, band, dlArfcn, 0) == UlArfcn(UlArfcnOfRow(rows[i], dlArfcn)))
  {
    var i := FirstRowOfBand(rows, band, 0);
    if i == -1 {
      UlArfcnPastBand(rows, band, dlArfcn, 0);
    } else {
      UlArfcnFirstBandRow(rows, band, dlArfcn, 0, i);
    }
  }

  /// The first row of a band decides the UL ARFCN.
  lemma {:induction false} UlArfcnFirstBandRow(rows: seq<NrBand>, band: Band, dlArfcn: U32, k: nat, i: nat)
    requires k <= i < |rows| && rows[i].band == band
    requires NoRowOfBandBetween(rows, band, k, i)
    decreases i - k
    ensures rows[i].dlNrefStep == 0 ==> UlArfcnFromRows(rows, band, dlArfcn, k) == DivisionByZero
    ensures rows[i].dlNrefStep != 0 ==> UlArfcnFromRows(rows, band, dlArfcn, k) == UlArfcn(UlArfcnOfRow(rows[i], dlArfcn))
  {
    if k < i {
      UlArfcnFirstBandRow(rows, band, dlArfcn, k + 1, i);
    }
  }

  /// Row 30 is the first row of n80, and it has no DL raster.
  lemma FirstRowOfN80()
    ensures NrBandTableFr1[30].band == 80 && NrBandTableFr1[30].dlNrefStep == 0
    ensures NoRowOfBandBetween(NrBandTableFr1, 80, 0, 30)
  {
  }

  lemma DuplexModeOfN80()
    ensures GetDuplexMode(80) == SUL
  {
    GetDuplexModeByBand(80);
  }

  /// DL ARFCN 0 belongs to the SUL band n80, whose row has a DL step of 0: the C++ code divides by zero.
  lemma UlArfcnOfArfcn0DividesByZero()
    ensures GetUlArfcnFromDlArfcnAsWritten(0) == DivisionByZero
  {
    Arfcn0IsBandN80();
    DuplexModeOfN80();
    FirstRowOfN80();
    UlArfcnFirstBandRow(NrBandTableFr1, 80, 0, 0, 30);
  }

  /// Neighbouring rows ascend by band, and the second row of a band has a DL range inside the first's.
  predicate AdjacentBandRowsOrdered(rows: seq<NrBand>) {
    forall m :: 0 < m < |rows| ==>
      rows[m - 1].band <= rows[m].band &&
      (rows[m - 1].band == rows[m].band ==>
         rows[m - 1].dlNrefFirst <= rows[m].dlNrefFirst && rows[m].dlNrefLast <= rows[m - 1].dlNrefLast)
  }

  lemma BandTableAdjacentRowsOrdered()
    ensures AdjacentBandRowsOrdered(NrBandTableFr1)
  {
    BandTableBandsAscend();
    BandTableRowsNested();
  }

  lemma BandTableBandsAscend()
    ensures forall m :: 0 < m < |NrBandTableFr1| ==> NrBandTableFr1[m - 1].band <= NrBandTableFr1[m].band
  {
  }

  lemma BandTableRowsNested()
    ensures forall m :: 0 < m < |NrBandTableFr1| ==>
      (NrBandTableFr1[m - 1].band == NrBandTableFr1[m].band ==>
         NrBandTableFr1[m - 1].dlNrefFirst <= NrBandTableFr1[m].dlNrefFirst &&
         NrBandTableFr1[m].dlNrefLast <= NrBandTableFr1[m - 1].dlNrefLast)
  {
  }

  /// A band listed again further down keeps a DL range inside that of its earlier row.
  lemma {:induction false} LaterRowOfBandNested(rows: seq<NrBand>, j: nat, k: nat)
    requires AdjacentBandRowsOrdered(rows)
    requires j < k < |rows| && rows[j].band == rows[k].band
    decreases k - j
    ensures rows[j].dlNrefFirst <= rows[k].dlNrefFirst && rows[k].dlNrefLast <= rows[j].dlNrefLast
  {
    BandsAscend(rows, j, k - 1);
    if j < k - 1 {
      LaterRowOfBandNested(rows, j, k - 1);
    }
  }

  lemma {:induction false} BandsAscend(rows: seq<NrBand>, j: nat, k: nat)
    requires AdjacentBandRowsOrdered(rows)
    requires j <= k < |rows|
    decreases k - j
    ensures rows[j].band <= rows[k].band
  {
    if j < k {
      BandsAscend(rows, j, k - 1);
    }
  }

  /// Every FDD row has a DL and UL step of 20 channels, and its ARFCNs are far below 2^32.
  lemma BandTableFddRows()
    ensures forall k :: 0 <= k < |NrBandTableFr1| && NrBandTableFr1[k].band in FddBands ==>
      NrBandTableFr1[k].dlNrefStep == 20 && NrBandTableFr1[k].ulNrefStep == 20 &&
      NrBandTableFr1[k].dlNrefLast < 600000 && NrBandTableFr1[k].ulNrefFirst < 600000
  {
  }

  lemma FddRowFacts(i: nat)
    requires i < |NrBandTableFr1| && NrBandTableFr1[i].band in FddBands
    ensures NrBandTableFr1[i].dlNrefStep == 20 && NrBandTableFr1[i].ulNrefStep == 20
    ensures NrBandTableFr1[i].dlNrefLast < 600000 && NrBandTableFr1[i].ulNrefFirst < 600000
  {
    BandTableFddRows();
  }

  /// A band whose duplex mode is FDD is one of the FDD bands of the table.
  lemma FddModeIsFddBand(band: Band)
    requires GetDuplexMode(band) == FDD
    ensures band in FddBands
  {
    GetDuplexModeByBand(band);
  }

  /// The row that holds a DL ARFCN of an FDD band is the first row of that band.
  lemma FddArfcnRow(dlArfcn: U32) returns (i: nat)
    requires GetDuplexMode(GetBandFromDlArfcn(dlArfcn)) == FDD
    ensures i < |NrBandTableFr1| && NrBandTableFr1[i].band == GetBandFromDlArfcn(dlArfcn)
    ensures InDlRange(NrBandTableFr1[i], dlArfcn)
    ensures NoRowOfBandBetween(NrBandTableFr1, NrBandTableFr1[i].band, 0, i)
  {
    var t := NrBandTableFr1;
    var band := GetBandFromDlArfcn(dlArfcn);
    BandTableAdjacentRowsOrdered();
    var k := BandFromDlArfcnFirstMatch(t, dlArfcn, 0);
    if k < 0 {
      // No row holds the ARFCN: the band is the invalid band, which has no duplex mode.
      GetDuplexModeByBand(band);
      assert false;
    }
    i := k;
    forall j | 0 <= j < i ensures t[j].band != band {
      if t[j].band == band {
        LaterRowOfBandNested(t, j, i);
        assert false;
      }
    }
  }

  /// The UL ARFCN of a row in exact arithmetic: as many UL steps above the first UL ARFCN
  /// as the DL ARFCN is DL steps above the first DL ARFCN.
  function RowUlArfcn(row: NrBand, dlArfcn: nat): int
    requires row.dlNrefStep != 0
  {
    row.ulNrefFirst + (dlArfcn - row.dlNrefFirst) / row.dlNrefStep * row.ulNrefStep
  }

  /// The ARFCN is a whole number of UL steps at or above the first UL ARFCN of the row.
  predicate OnUlRaster(row: NrBand, ul: int)
    requires row.ulNrefStep != 0
  {
    ul >= row.ulNrefFirst && (ul - row.ulNrefFirst) % row.ulNrefStep == 0
  }

  /// On a row with steps of 20 and ARFCNs below 600000, the uint32 arithmetic does not wrap
  /// and the result lies on the UL raster of the row.
  lemma FddRowArithmetic(row: NrBand, dlArfcn: U32)
    requires InDlRange(row, dlArfcn) && row.dlNrefStep == 20 && row.ulNrefStep == 20
    requires row.dlNrefLast < 600000 && row.ulNrefFirst < 600000
    ensures UlArfcnOfRow(row, dlArfcn) == RowUlArfcn(row, dlArfcn)
    ensures OnUlRaster(row, RowUlArfcn(row, dlArfcn))
  {
    var delta := dlArfcn - row.dlNrefFirst;
    assert 0 <= delta < 600000;
    assert delta % U32Modulus == delta;
    var offset := delta / 20;
    assert offset <= 30000;
    assert RowUlArfcn(row, dlArfcn) == row.ulNrefFirst + offset * 20 < U32Modulus;
  }

  /// Every band of Table 5.4.2.3-1 has a duplex mode.
  lemma BandTableBandsListed()
    ensures forall k :: 0 <= k < |NrBandTableFr1| ==> NrBandTableFr1[k].band in FddBands + TddBands + SulBands
  {
    BandTableFddTddRows();
    BandTableSulRows();
  }

  /// The rows before n80 belong to FDD and TDD bands.
  lemma BandTableFddTddRows()
    ensures forall k :: 0 <= k < 30 ==> NrBandTableFr1[k].band in FddBands + TddBands
  {
  }

  /// Exactly the supplementary-uplink rows of Table 5.4.2.3-1 have no DL raster.
  lemma BandTableSulRows()
    ensures forall k :: 0 <= k < |NrBandTableFr1| ==>
      (NrBandTableFr1[k].dlNrefStep == 0 <==> NrBandTableFr1[k].band in SulBands)
    ensures forall k :: 30 <= k < |NrBandTableFr1| ==> NrBandTableFr1[k].band in SulBands
  {
    var t := NrBandTableFr1;
    assert forall k :: 0 <= k < 30 ==> t[k].dlNrefStep != 0 && t[k].band < 80;
  }

  /// The first row of the band get_band_from_dl_arfcn picks: for an FDD band it holds the DL ARFCN,
  /// has steps of 20 and computes without wrap-around; for a SUL band it has no DL raster; an
  /// ARFCN without a duplex mode has no such row.
  lemma FirstRowOfDlBand(dlArfcn: U32)
    ensures var band := GetBandFromDlArfcn(dlArfcn);
            var i := FirstRowOfBand(NrBandTableFr1, band, 0);
            (GetDuplexMode(band) == FDD ==>
               0 <= i && InDlRange(NrBandTableFr1[i], dlArfcn) &&
               NrBandTableFr1[i].dlNrefStep == 20 && NrBandTableFr1[i].ulNrefStep == 20 &&
               UlArfcnOfRow(NrBandTableFr1[i], dlArfcn) == RowUlArfcn(NrBandTableFr1[i], dlArfcn) &&
               OnUlRaster(NrBandTableFr1[i], RowUlArfcn(NrBandTableFr1[i], dlArfcn))) &&
            (GetDuplexMode(band) == SUL ==> 0 <= i && NrBandTableFr1[i].dlNrefStep == 0) &&
            (GetDuplexMode(band) == INVALID ==> i == -1)
  {
    var t := NrBandTableFr1;
    var band := GetBandFromDlArfcn(dlArfcn);
    var i := FirstRowOfBand(t, band, 0);
    GetDuplexModeByBand(band);
    BandTableBandsListed();
    BandTableSulRows();
    if GetDuplexMode(band) == FDD {
      var r := FddArfcnRow(dlArfcn);
      assert i == r;
      FddRowFacts(r);
      FddRowArithmetic(t[r], dlArfcn);
    } else if GetDuplexMode(band) == SUL {
      var m := BandFromDlArfcnFirstMatch(t, dlArfcn, 0);
      assert m >= 0 && t[m].band == band;
    } else if GetDuplexMode(band) == INVALID {
    }
  }

  /// get_ul_arfcn_from_dl_arfcn with the division guarded. A TDD band gives the DL ARFCN; an FDD
  /// band gives `ul_nref_first + ((dl - dl_nref_first) / dl_nref_step) * ul_nref_step` on the first
  /// row of the band, which holds the DL ARFCN; a band without a DL raster (a supplementary-uplink
  /// band) has no UL ARFCN to derive and gives 0, as does an ARFCN that no row holds.
  function GetUlArfcnFromDlArfcn(dlArfcn: U32): (ul: U32)
    ensures GetDuplexMode(GetBandFromDlArfcn(dlArfcn)) == TDD ==> ul == dlArfcn
    ensures GetDuplexMode(GetBandFromDlArfcn(dlArfcn)) == FDD ==>
      var i := FirstRowOfBand(NrBandTableFr1, GetBandFromDlArfcn(dlArfcn), 0);
      0 <= i && NrBandTableFr1[i].band == GetBandFromDlArfcn(dlArfcn) && InDlRange(NrBandTableFr1[i], dlArfcn) &&
      NrBandTableFr1[i].dlNrefStep == 20 && NrBandTableFr1[i].ulNrefStep == 20 &&
      ul == RowUlArfcn(NrBandTableFr1[i], dlArfcn) && OnUlRaster(NrBandTableFr1[i], ul)
    ensures GetDuplexMode(GetBandFromDlArfcn(dlArfcn)) in {SUL, INVALID} ==> ul == 0
  {
    var band := GetBandFromDlArfcn(dlArfcn);
    var i := FirstRowOfBand(NrBandTableFr1, band, 0);
    FirstRowOfDlBand(dlArfcn);
    if GetDuplexMode(band) == TDD then dlArfcn
    else if i == -1 || NrBandTableFr1[i].dlNrefStep == 0 then 0
    else UlArfcnOfRow(NrBandTableFr1[i], dlArfcn)
  }

  /// The guarded function agrees with the code wherever the code is defined, and the code
  /// divides by zero exactly for the supplementary-uplink bands.
  lemma GetUlArfcnAgreesWithAsWritten(dlArfcn: U32)
    ensures GetUlArfcnFromDlArfcnAsWritten(dlArfcn).DivisionByZero? <==>
              GetDuplexMode(GetBandFromDlArfcn(dlArfcn)) == SUL
    ensures GetUlArfcnFromDlArfcnAsWritten(dlArfcn).UlArfcn? ==>
              GetUlArfcnFromDlArfcn(dlArfcn) == GetUlArfcnFromDlArfcnAsWritten(dlArfcn).arfcn
  {
    var band := GetBandFromDlArfcn(dlArfcn);
    var i := FirstRowOfBand(NrBandTableFr1, band, 0);
    FirstRowOfDlBand(dlArfcn);
    UlArfcnFromRowsByFirstRow(NrBandTableFr1, band, dlArfcn);
    BandTableBandsListed();
    BandTableSulRows();
    GetDuplexModeByBand(band);
  }

  /// A DL ARFCN whose band has no duplex mode, the invalid band among them, reaches the
  /// `return 0` behind the loop of the code.
  lemma UlArfcnWithoutDuplexMode(dlArfcn: U32)
    requires GetDuplexMode(GetBandFromDlArfcn(dlArfcn)) == INVALID
    ensures GetUlArfcnFromDlArfcnAsWritten(dlArfcn) == UlArfcn(0)
  {
    GetUlArfcnAgreesWithAsWritten(dlArfcn);
  }

  /// No row's DL range holds ARFCN 1: its band is invalid and both functions give 0.
  lemma UlArfcnOfUnmatchedArfcn()
    ensures GetBandFromDlArfcn(1) == InvalidBand
    ensures GetUlArfcnFromDlArfcnAsWritten(1) == UlArfcn(0) && GetUlArfcnFromDlArfcn(1) == 0
  {
    LowDlRanges();
    BandFromDlArfcnSkip(NrBandTableFr1, 1, 0, |NrBandTableFr1|);
    GetDuplexModeByBand(InvalidBand);
    UlArfcnWithoutDuplexMode(1);
  }

  /// ARFCN 0, of the SUL band n80, gives 0 once the division is guarded.
  lemma UlArfcnOfArfcn0()
    ensures GetUlArfcnFromDlArfcn(0) == 0
  {
    Arfcn0IsBandN80();
    DuplexModeOfN80();
  }

  // ---------------------------------------------------------------------------
  // Table 5.2-1 of TS 38.101-1: SSB subcarrier spacing and SSB pattern case per band
  // ---------------------------------------------------------------------------

  datatype NrBandSsbScsCase = NrBandSsbScsCase(band: Band, scs: SubcarrierSpacing, pattern: SsbPatternCase)

  const NrSsbBandScsCaseTableFr1: seq<NrBandSsbScsCase> := [
    NrBandSsbScsCase(1,  SubcarrierSpacing.KHz15, A), NrBandSsbScsCase(2,  SubcarrierSpacing.KHz15, A),
    NrBandSsbScsCase(3,  SubcarrierSpacing.KHz15, A), NrBandSsbScsCase(5,  SubcarrierSpacing.KHz15, A),
    NrBandSsbScsCase(5,  SubcarrierSpacing.KHz30, B), NrBandSsbScsCase(7,  SubcarrierSpacing.KHz15, A),
    NrBandSsbScsCase(8,  SubcarrierSpacing.KHz15, A), NrBandSsbScsCase(12, SubcarrierSpacing.KHz15, A),
    NrBandSsbScsCase(20, SubcarrierSpacing.KHz15, A), NrBandSsbScsCase(25, SubcarrierSpacing.KHz15, A),
    NrBandSsbScsCase(28, SubcarrierSpacing.KHz15, A), NrBandSsbScsCase(34, SubcarrierSpacing.KHz15, A),
    NrBandSsbScsCase(34, SubcarrierSpacing.KHz30, C), NrBandSsbScsCase(38, SubcarrierSpacing.KHz15, A),
    NrBandSsbScsCase(38, SubcarrierSpacing.KHz30, C), NrBandSsbScsCase(39, SubcarrierSpacing.KHz15, A),
    NrBandSsbScsCase(39, SubcarrierSpacing.KHz30, C), NrBandSsbScsCase(40, SubcarrierSpacing.KHz30, C),
    NrBandSsbScsCase(41, SubcarrierSpacing.KHz15, A), NrBandSsbScsCase(41, SubcarrierSpacing.KHz30, C),
    NrBandSsbScsCase(50, SubcarrierSpacing.KHz30, C), NrBandSsbScsCase(51, SubcarrierSpacing.KHz15, A),
    NrBandSsbScsCase(66, SubcarrierSpacing.KHz15, A), NrBandSsbScsCase(66, SubcarrierSpacing.KHz30, B),
    NrBandSsbScsCase(70, SubcarrierSpacing.KHz15, A), NrBandSsbScsCase(71, SubcarrierSpacing.KHz15, A),
    NrBandSsbScsCase(74, SubcarrierSpacing.KHz15, A), NrBandSsbScsCase(75, SubcarrierSpacing.KHz15, A),
    NrBandSsbScsCase(76, SubcarrierSpacing.KHz15, A), NrBandSsbScsCase(77, SubcarrierSpacing.KHz30, C),
    NrBandSsbScsCase(78, SubcarrierSpacing.KHz30, C), NrBandSsbScsCase(79, SubcarrierSpacing.KHz30, C)
  ]

  /// Rows ascend by band and, within a band, by subcarrier spacing.
  predicate SortedSsbRows(rows: seq<NrBandSsbScsCase>) {
    forall j, k :: 0 <= j < k < |rows| ==>
      rows[j].band < rows[k].band || (rows[j].band == rows[k].band && ScsOrdinal(rows[j].scs) < ScsOrdinal(rows[k].scs))
  }

  /// The loop of get_ssb_pattern from row k on: it stops at the first row of a larger band.
  function SsbPatternFrom(rows: seq<NrBandSsbScsCase>, band: Band, scs: SubcarrierSpacing, k: nat): SsbPatternCase
    decreases |rows| - k
  {
    if k >= |rows| then SsbPatternCase.Invalid
    else if rows[k].band > band then SsbPatternCase.Invalid
    else if rows[k].band == band && rows[k].scs == scs then rows[k].pattern
    else SsbPatternFrom(rows, band, scs, k + 1)
  }

  function GetSsbPattern(band: Band, scs: SubcarrierSpacing): SsbPatternCase {
    SsbPatternFrom(NrSsbBandScsCaseTableFr1, band, scs, 0)
  }

  /// On sorted rows, the pattern is that of the row with exactly this band and spacing, and invalid when there is none.
  lemma {:induction false} SsbPatternExactMatch(rows: seq<NrBandSsbScsCase>, band: Band, scs: SubcarrierSpacing, k: nat) returns (i: int)
    requires SortedSsbRows(rows) && k <= |rows|
    decreases |rows| - k
    ensures i == -1 || k <= i < |rows|
    ensures i == -1 ==> (forall j :: k <= j < |rows| ==> !(rows[j].band == band && rows[j].scs == scs))
                        && SsbPatternFrom(rows, band, scs, k) == SsbPatternCase.Invalid
    ensures i >= 0 ==> rows[i].band == band && rows[i].scs == scs && SsbPatternFrom(rows, band, scs, k) == rows[i].pattern
  {
    if k == |rows| {
      i := -1;
    } else if rows[k].band > band {
      i := -1;
    } else if rows[k].band == band && rows[k].scs == scs {
      i := k;
    } else {
      i := SsbPatternExactMatch(rows, band, scs, k + 1);
    }
  }

  lemma SsbTableSorted()
    ensures SortedSsbRows(NrSsbBandScsCaseTableFr1)
  {
    var t := NrSsbBandScsCaseTableFr1;
    assert forall k :: 0 < k < |t| ==>
      t[k - 1].band < t[k].band || (t[k - 1].band == t[k].band && ScsOrdinal(t[k - 1].scs) < ScsOrdinal(t[k].scs));
    AdjacentSsbRowsSorted(t, 0);
  }

  /// Rows sorted pairwise from their neighbours: row k against every later row.
  lemma {:induction false} AdjacentSsbRowsSorted(rows: seq<NrBandSsbScsCase>, k: nat)
    requires forall m :: 0 < m < |rows| ==>
      rows[m - 1].band < rows[m].band || (rows[m - 1].band == rows[m].band && ScsOrdinal(rows[m - 1].scs) < ScsOrdinal(rows[m].scs))
    requires k <= |rows|
    decreases |rows| - k
    ensures forall j, m :: k <= j < m < |rows| ==>
      rows[j].band < rows[m].band || (rows[j].band == rows[m].band && ScsOrdinal(rows[j].scs) < ScsOrdinal(rows[m].scs))
  {
    if k < |rows| {
      AdjacentSsbRowsSorted(rows, k + 1);
      forall j, m | k <= j < m < |rows|
        ensures rows[j].band < rows[m].band || (rows[j].band == rows[m].band && ScsOrdinal(rows[j].scs) < ScsOrdinal(rows[m].scs))
      {
        if j == k && m > k + 1 {
          assert rows[k].band < rows[k + 1].band || (rows[k].band == rows[k + 1].band && ScsOrdinal(rows[k].scs) < ScsOrdinal(rows[k + 1].scs));
          assert rows[k + 1].band < rows[m].band || (rows[k + 1].band == rows[m].band && ScsOrdinal(rows[k + 1].scs) < ScsOrdinal(rows[m].scs));
        }
      }
    }
  }

  /// The loop of get_ssb_pattern moves on past this row.
  predicate SsbRowPassed(row: NrBandSsbScsCase, band: Band, scs: SubcarrierSpacing) {
    row.band <= band && !(row.band == band && row.scs == scs)
  }

  /// Past rows [k, i) the search goes on to row i, whatever the order of the table.
  lemma {:induction false} SsbPatternScan(rows: seq<NrBandSsbScsCase>, band: Band, scs: SubcarrierSpacing, k: nat, i: nat)
    requires k <= i <= |rows|
    requires forall j :: k <= j < i ==> SsbRowPassed(rows[j], band, scs)
    decreases i - k
    ensures SsbPatternFrom(rows, band, scs, k) == SsbPatternFrom(rows, band, scs, i)
  {
    if k < i {
      SsbPatternScan(rows, band, scs, k + 1, i);
    }
  }

  /// Band n5 has a 30 kHz SSB with pattern case B.
  lemma SsbPatternOfN5()
    ensures GetSsbPattern(5, SubcarrierSpacing.KHz30) == B
  {
    var t := NrSsbBandScsCaseTableFr1;
    assert forall j :: 0 <= j < 4 ==> SsbRowPassed(t[j], 5, SubcarrierSpacing.KHz30);
    SsbPatternScan(t, 5, SubcarrierSpacing.KHz30, 0, 4);
  }

  /// Band n77 has no 15 kHz SSB: the search passes its 30 kHz row and stops at n78.
  lemma SsbPatternOfN77()
    ensures GetSsbPattern(77, SubcarrierSpacing.KHz15) == SsbPatternCase.Invalid
  {
    var t := NrSsbBandScsCaseTableFr1;
    assert forall j :: 0 <= j < 30 ==> SsbRowPassed(t[j], 77, SubcarrierSpacing.KHz15);
    SsbPatternScan(t, 77, SubcarrierSpacing.KHz15, 0, 30);
  }

  /// The loop of get_lowest_ssb_scs from row k on: the spacing of the first row of the band.
  function LowestSsbScsFrom(rows: seq<NrBandSsbScsCase>, band: Band, k: nat): SubcarrierSpacing
    decreases |rows| - k
  {
    if k >= |rows| then SubcarrierSpacing.Invalid
    else if rows[k].band == band then rows[k].scs
    else if rows[k].band > band then SubcarrierSpacing.Invalid
    else LowestSsbScsFrom(rows, band, k + 1)
  }

  function GetLowestSsbScs(band: Band): SubcarrierSpacing {
    LowestSsbScsFrom(NrSsbBandScsCaseTableFr1, band, 0)
  }

  /// On sorted rows the spacing found is that of a row of the band and no larger than any other
  /// spacing the band lists; a band without rows gives invalid.
  lemma {:induction false} LowestSsbScsIsMinimal(rows: seq<NrBandSsbScsCase>, band: Band, k: nat) returns (i: int)
    requires SortedSsbRows(rows) && k <= |rows|
    decreases |rows| - k
    ensures i == -1 || k <= i < |rows|
    ensures i == -1 ==> (forall j :: k <= j < |rows| ==> rows[j].band != band)
                        && LowestSsbScsFrom(rows, band, k) == SubcarrierSpacing.Invalid
    ensures i >= 0 ==> rows[i].band == band && LowestSsbScsFrom(rows, band, k) == rows[i].scs
    ensures i >= 0 ==> forall j :: k <= j < |rows| && rows[j].band == band ==> ScsOrdinal(rows[i].scs) <= ScsOrdinal(rows[j].scs)
  {
    if k == |rows| {
      i := -1;
    } else if rows[k].band == band {
      i := k;
    } else if rows[k].band > band {
      i := -1;
    } else {
      i := LowestSsbScsIsMinimal(rows, band, k + 1);
    }
  }

  /// On sorted rows, the lowest spacing a band lists has an SSB pattern.
  lemma LowestScsHasPatternOn(rows: seq<NrBandSsbScsCase>, band: Band)
    requires SortedSsbRows(rows)
    requires forall j :: 0 <= j < |rows| ==> rows[j].pattern != SsbPatternCase.Invalid
    ensures LowestSsbScsFrom(rows, band, 0) != SubcarrierSpacing.Invalid ==>
              SsbPatternFrom(rows, band, LowestSsbScsFrom(rows, band, 0), 0) != SsbPatternCase.Invalid
  {
    var i := LowestSsbScsIsMinimal(rows, band, 0);
    if i >= 0 {
      var k := SsbPatternExactMatch(rows, band, rows[i].scs, 0);
    }
  }

  /// Every row of the table names a pattern case.
  lemma SsbTablePatternsValid()
    ensures forall j :: 0 <= j < |NrSsbBandScsCaseTableFr1| ==> NrSsbBandScsCaseTableFr1[j].pattern != SsbPatternCase.Invalid
  {
  }

  /// The lowest spacing of a band always has an SSB pattern.
  lemma LowestSsbScsHasPattern(band: Band)
    ensures GetLowestSsbScs(band) != SubcarrierSpacing.Invalid ==>
              GetSsbPattern(band, GetLowestSsbScs(band)) != SsbPatternCase.Invalid
  {
    SsbTableSorted();
    SsbTablePatternsValid();
    LowestScsHasPatternOn(NrSsbBandScsCaseTableFr1, band);
  }

  /// Band n40 lists only a 30 kHz SSB.
  lemma LowestSsbScsOfN40()
    ensures GetLowestSsbScs(40) == SubcarrierSpacing.KHz30
  {
    var t := NrSsbBandScsCaseTableFr1;
    assert forall j :: 0 <= j < 17 ==> t[j].band < 40;
    LowestSsbScsFirstRow(t, 40, 0, 17);
  }

  /// Past rows of smaller bands, the first row of the band gives the spacing.
  lemma {:induction false} LowestSsbScsFirstRow(rows: seq<NrBandSsbScsCase>, band: Band, k: nat, i: nat)
    requires k <= i < |rows| && rows[i].band == band
    requires forall j :: k <= j < i ==> rows[j].band < band
    decreases i - k
    ensures LowestSsbScsFrom(rows, band, k) == rows[i].scs
  {
    if k < i {
      LowestSsbScsFirstRow(rows, band, k + 1, i);
    }
  }

  // ---------------------------------------------------------------------------
  // Table 5.3.2-1 of TS 38.104: transmission bandwidth N_RB per channel bandwidth and SCS
  // ---------------------------------------------------------------------------

  /// A row of the table; the bandwidth is in MHz and an N_RB of 0 stands for N/A.
  datatype NRbPerScs = NRbPerScs(bwMHz: nat, nRb15kHz: nat, nRb30kHz: nat, nRb60kHz: nat)

  const TxBwConfigFr1: seq<NRbPerScs> := [
    NRbPerScs(5, 25, 11, 0),      NRbPerScs(10, 52, 24, 11),    NRbPerScs(15, 79, 38, 18),
    NRbPerScs(20, 106, 51, 24),   NRbPerScs(25, 133, 65, 31),   NRbPerScs(30, 160, 78, 38),
    NRbPerScs(40, 216, 106, 51),  NRbPerScs(50, 270, 133, 65),  NRbPerScs(60, 0, 162, 79),
    NRbPerScs(70, 0, 189, 93),    NRbPerScs(80, 0, 217, 107),   NRbPerScs(90, 0, 245, 121),
    NRbPerScs(100, 0, 273, 135)
  ]

  /// The column of a row for a spacing of at most 60 kHz.
  function NRbColumn(row: NRbPerScs, scs: SubcarrierSpacing): nat {
    if scs == SubcarrierSpacing.KHz15 then row.nRb15kHz
    else if scs == SubcarrierSpacing.KHz30 then row.nRb30kHz
    else row.nRb60kHz
  }

  /// The loop of get_n_rbs_from_bw from row k on.
  function NRbsFrom(rows: seq<NRbPerScs>, bwMHz: nat, scs: SubcarrierSpacing, k: nat): nat
    decreases |rows| - k
  {
    if k >= |rows| then 0
    else if rows[k].bwMHz == bwMHz then NRbColumn(rows[k], scs)
    else NRbsFrom(rows, bwMHz, scs, k + 1)
  }

  function GetNRbsFromBw(bwMHz: nat, scs: SubcarrierSpacing, fr: FrequencyRange): (nRb: nat)
    ensures nRb > 0 ==> fr == FR1 && ScsOrdinal(scs) <= ScsOrdinal(SubcarrierSpacing.KHz60)
  {
    if fr != FR1 || ScsOrdinal(scs) > ScsOrdinal(SubcarrierSpacing.KHz60) then 0
    else NRbsFrom(TxBwConfigFr1, bwMHz, scs, 0)
  }

  /// The N_RB found is the entry of the first row of the bandwidth, and 0 when no row has it.
  lemma {:induction false} NRbsFirstMatch(rows: seq<NRbPerScs>, bwMHz: nat, scs: SubcarrierSpacing, k: nat) returns (i: int)
    requires k <= |rows|
    decreases |rows| - k
    ensures i == -1 || k <= i < |rows|
    ensures i == -1 ==> (forall j :: k <= j < |rows| ==> rows[j].bwMHz != bwMHz) && NRbsFrom(rows, bwMHz, scs, k) == 0
    ensures i >= 0 ==> rows[i].bwMHz == bwMHz && (forall j :: k <= j < i ==> rows[j].bwMHz != bwMHz)
                       && NRbsFrom(rows, bwMHz, scs, k) == NRbColumn(rows[i], scs)
  {
    if k == |rows| {
      i := -1;
    } else if rows[k].bwMHz == bwMHz {
      i := k;
    } else {
      i := NRbsFirstMatch(rows, bwMHz, scs, k + 1);
    }
  }

  /// Each bandwidth has one row.
  lemma TxBwConfigDistinct()
    ensures forall j, k :: 0 <= j < k < |TxBwConfigFr1| ==> TxBwConfigFr1[j].bwMHz != TxBwConfigFr1[k].bwMHz
  {
  }

  /// N_RB is the table entry for the bandwidth and spacing in FR1 up to 60 kHz; outside FR1,
  /// above 60 kHz and for a bandwidth the table does not list it is 0.
  lemma GetNRbsFromBwTable(bwMHz: nat, scs: SubcarrierSpacing, fr: FrequencyRange)
    ensures fr != FR1 ==> GetNRbsFromBw(bwMHz, scs, fr) == 0
    ensures ScsOrdinal(scs) > ScsOrdinal(SubcarrierSpacing.KHz60) ==> GetNRbsFromBw(bwMHz, scs, fr) == 0
    ensures (forall j :: 0 <= j < |TxBwConfigFr1| ==> TxBwConfigFr1[j].bwMHz != bwMHz) ==> GetNRbsFromBw(bwMHz, scs, fr) == 0
    ensures fr == FR1 && ScsOrdinal(scs) <= ScsOrdinal(SubcarrierSpacing.KHz60) ==>
      forall j :: 0 <= j < |TxBwConfigFr1| && TxBwConfigFr1[j].bwMHz == bwMHz ==>
        GetNRbsFromBw(bwMHz, scs, fr) == NRbColumn(TxBwConfigFr1[j], scs)
  {
    TxBwConfigDistinct();
    var i := NRbsFirstMatch(TxBwConfigFr1, bwMHz, scs, 0);
  }

  /// 60 MHz at 15 kHz is N/A; 100 MHz at 30 kHz has 273 resource blocks; 120 kHz is outside the table.
  lemma NRbsExamples()
    ensures GetNRbsFromBw(60, SubcarrierSpacing.KHz15, FR1) == 0
    ensures GetNRbsFromBw(100, SubcarrierSpacing.KHz30, FR1) == 273
    ensures GetNRbsFromBw(100, SubcarrierSpacing.KHz120, FR1) == 0
  {
    GetNRbsFromBwTable(60, SubcarrierSpacing.KHz15, FR1);
    assert TxBwConfigFr1[8].bwMHz == 60;
    GetNRbsFromBwTable(100, SubcarrierSpacing.KHz30, FR1);
    assert TxBwConfigFr1[12].bwMHz == 100;
  }

  // ---------------------------------------------------------------------------
  // Table 5.4.2.1-1 of TS 38.104: NR-ARFCN parameters of the global frequency raster
  // ---------------------------------------------------------------------------

  /// A raster range. The source keeps the frequencies as doubles; every one of them is a
  /// whole number in the units chosen here (MHz, kHz, kHz).
  datatype NrRasterParams = NrRasterParams(freqRangeStartMHz: nat, freqRangeEndMHz: nat,
                                           deltaFGlobalKHz: nat, fRefOffsKHz: nat,
                                           nRefOffs: nat, nRefMin: nat, nRefMax: nat)

  const MaxNrArfcn: nat := 3279165

  const NrFrParams: seq<NrRasterParams> := [
    NrRasterParams(0, 3000, 5, 0, 0, 0, 599999),
    NrRasterParams(3000, 24250, 15, 3000000, 600000, 600000, 2016666),
    NrRasterParams(24250, 100000, 60, 24250080, 2016667, 2016667, MaxNrArfcn)
  ]

  /// The value-initialised parameters returned when no range holds the ARFCN.
  const EmptyRasterParams := NrRasterParams(0, 0, 0, 0, 0, 0, 0)

  predicate InRaster(fr: NrRasterParams, arfcn: nat) {
    fr.nRefMin <= arfcn <= fr.nRefMax
  }

  /// The loop of the ARFCN overload of get_raster_params from range k on.
  function RasterParamsFrom(rows: seq<NrRasterParams>, arfcn: nat, k: nat): NrRasterParams
    decreases |rows| - k
  {
    if k >= |rows| then EmptyRasterParams
    else if InRaster(rows[k], arfcn) then rows[k]
    else RasterParamsFrom(rows, arfcn, k + 1)
  }

  function GetRasterParams(arfcn: U32): NrRasterParams {
    RasterParamsFrom(NrFrParams, arfcn, 0)
  }

  /// The parameters found are those of the first range holding the ARFCN, or the empty ones.
  lemma {:induction false} RasterParamsFirstMatch(rows: seq<NrRasterParams>, arfcn: nat, k: nat) returns (i: int)
    requires k <= |rows|
    decreases |rows| - k
    ensures i == -1 || k <= i < |rows|
    ensures i == -1 ==> (forall j :: k <= j < |rows| ==> !InRaster(rows[j], arfcn)) && RasterParamsFrom(rows, arfcn, k) == EmptyRasterParams
    ensures i >= 0 ==> InRaster(rows[i], arfcn) && (forall j :: k <= j < i ==> !InRaster(rows[j], arfcn))
                       && RasterParamsFrom(rows, arfcn, k) == rows[i]
  {
    if k == |rows| {
      i := -1;
    } else if InRaster(rows[k], arfcn) {
      i := k;
    } else {
      i := RasterParamsFirstMatch(rows, arfcn, k + 1);
    }
  }

  /// The three ranges start at 0, follow each other without gap or overlap and end at the largest NR-ARFCN.
  lemma RasterRangesContiguous()
    ensures NrFrParams[0].nRefMin == 0 && NrFrParams[2].nRefMax == MaxNrArfcn
    ensures forall k :: 0 < k < |NrFrParams| ==> NrFrParams[k - 1].nRefMax + 1 == NrFrParams[k].nRefMin
    ensures forall k :: 0 <= k < |NrFrParams| ==> NrFrParams[k].nRefMin <= NrFrParams[k].nRefMax
  {
  }

  /// Every NR-ARFCN up to the maximum lies in exactly one range, whose parameters are returned;
  /// a larger one lies in none and gets the empty parameters.
  lemma GetRasterParamsPartition(arfcn: U32) returns (k: int)
    ensures arfcn <= MaxNrArfcn ==>
      (0 <= k < |NrFrParams| && InRaster(NrFrParams[k], arfcn)
       && (forall j :: 0 <= j < |NrFrParams| && InRaster(NrFrParams[j], arfcn) ==> j == k)
       && GetRasterParams(arfcn) == NrFrParams[k])
    ensures arfcn > MaxNrArfcn ==>
      (k == -1 && (forall j :: 0 <= j < |NrFrParams| ==> !InRaster(NrFrParams[j], arfcn))
       && GetRasterParams(arfcn) == EmptyRasterParams)
  {
    RasterRangesContiguous();
    k := RasterParamsFirstMatch(NrFrParams, arfcn, 0);
    if arfcn <= MaxNrArfcn {
      assert InRaster(NrFrParams[0], arfcn) || InRaster(NrFrParams[1], arfcn) || InRaster(NrFrParams[2], arfcn);
    }
  }
}
