// LDPC code-block segmentation of a transport block, after sections 5.2.2 (code-block
// segmentation and CRC attachment), 5.4.2.1 (rate-matching output length E_r) and 7.2.1
// (transport-block CRC length) of 3GPP TS 38.212.

module LdpcSegmenter {

  /// An element of a bit buffer: the source keeps one bit per uint8_t.
  type Byte = b: int | 0 <= b < 256

  /// Length of the CRC attached to each code block when there is more than one.
  const SegCrcLength: nat := 24
  const BitsPerByte: nat := 8

  /// Maximum code-block lengths K_cb of base graphs 1 and 2.
  const MaxBg1BlockLength: nat := 8448
  const MaxBg2BlockLength: nat := 3840

  /// Columns and rows of the two base graphs.
  const Bg1NFull: nat := 68
  const Bg1M: nat := 46
  const Bg2NFull: nat := 52
  const Bg2M: nat := 42

  /// The lifting sizes Z of Table 5.3.2-1 of TS 38.212, in ascending order.
  const AllLiftingSizes: seq<nat> :=
    [2, 3, 4, 5, 6, 7, 8, 9, 10, 11, 12, 13, 14] +
    [15, 16, 18, 20, 22, 24, 26, 28, 30, 32, 36, 40, 44] +
    [48, 52, 56, 60, 64, 72, 80, 88, 96, 104, 112, 120, 128] +
    [144, 160, 176, 192, 208, 224, 240, 256, 288, 320, 352, 384]

  datatype BaseGraph = BG1 | BG2

  datatype Modulation = BPSK | QPSK | QAM16 | QAM64 | QAM256

  /// The modulation order Q_m, which is what the source gets from casting the scheme to unsigned.
  function BitsPerSymbol(m: Modulation): (qm: nat)
    ensures 1 <= qm <= 8
  {
    match m
    case BPSK => 1
    case QPSK => 2
    case QAM16 => 4
    case QAM64 => 6
    case QAM256 => 8
  }

  datatype CrcPoly = CRC24A | CRC24B | CRC24C | CRC16 | CRC11 | CRC6

  /// A CRC calculator: its generator and its checksum of a byte sequence and of a bit sequence.
  datatype CrcCalculator = CrcCalculator(poly: CrcPoly, calculateByte: seq<Byte> -> nat, calculateBit: seq<Byte> -> nat)

  datatype Config = Config(baseGraph: BaseGraph, rv: int, mod: Modulation, nofLayers: nat, nofChSymbols: nat, nref: nat)

  datatype CodeblockDescription = CodeblockDescription(
    baseGraph: BaseGraph, liftingSize: nat, rv: int, mod: Modulation, nref: nat,
    fullLength: nat, nofFillerBits: nat, rmLength: nat)

  datatype DescribedSegment = DescribedSegment(data: seq<Byte>, description: CodeblockDescription)

  // ---------------------------------------------------------------------------
  // Arithmetic
  // ---------------------------------------------------------------------------

  /// divide_ceil: the least q with q * b >= a.
  function DivideCeil(a: nat, b: nat): (q: nat)
    requires b > 0
    ensures q * b >= a
    ensures q > 0 ==> (q - 1) * b < a
  {
    (a + b - 1) / b
  }

  /// A multiple of b that reaches a is at least the rounded-up quotient.
  lemma DivideCeilLeast(a: nat, b: nat, x: nat)
    requires b > 0 && x * b >= a
    ensures x >= DivideCeil(a, b)
  {
  }

  function Pow2(n: nat): (p: nat)
    ensures p >= 1
  {
    if n == 0 then 1 else 2 * Pow2(n - 1)
  }

  lemma MulMono(a: nat, b: nat, d: nat)
    requires a <= b
    ensures a * d <= b * d
  {}

  lemma MulDistrib(a: nat, b: nat, d: nat)
    ensures (a + b) * d == a * d + b * d
  {}

  lemma MulSucc(a: nat, d: nat)
    ensures (a + 1) * d == a * d + d
  {}

  /// Euclidean division is unique: a quotient with a remainder below d is v / d.
  lemma ResidueQuotient(v: nat, d: nat, q: nat, r: nat)
    requires d > 0 && r < d && v == d * q + r
    ensures v / d == q
  {
    var q' := v / d;
    assert v == d * q' + v % d;
    if q' < q {
      MulMono(q' + 1, q, d);
      MulSucc(q', d);
    } else if q' > q {
      MulMono(q + 1, q', d);
      MulSucc(q, d);
    }
  }

  /// A multiple of c that reaches m * c has a factor of at least m.
  lemma QuotientAtLeast(q: nat, c: nat, m: nat)
    requires c > 0 && q * c >= m * c
    ensures q >= m
  {
    if q < m {
      MulMono(q + 1, m, c);
      MulSucc(q, c);
    }
  }

  /// The rounded-up quotient is the rounded-down one, plus one when there is a remainder.
  lemma DivideCeilByFloor(a: nat, b: nat)
    requires b > 0
    ensures DivideCeil(a, b) == a / b + (if a % b == 0 then 0 else 1)
  {
    var f, r := a / b, a % b;
    assert a == b * f + r;
    if r > 0 {
      MulSucc(f, b);
      ResidueQuotient(a + b - 1, b, f + 1, r - 1);
    } else {
      ResidueQuotient(a + b - 1, b, f, b - 1);
    }
  }

  // ---------------------------------------------------------------------------
  // Bit packing
  // ---------------------------------------------------------------------------

  /// bit_unpack of a value into n bits, most significant bit first.
  function UnpackBits(value: nat, n: nat): (bits: seq<Byte>)
    ensures |bits| == n
    ensures forall k :: 0 <= k < n ==> bits[k] < 2
  {
    if n == 0 then [] else UnpackBits(value / 2, n - 1) + [value % 2]
  }

  /// The value of a bit sequence read most significant bit first.
  function PackBits(bits: seq<Byte>): nat {
    if bits == [] then 0 else PackBits(bits[..|bits| - 1]) * 2 + bits[|bits| - 1]
  }

  /// Unpacking a value of at most n bits and packing the bits again gives the value back.
  lemma {:induction false} PackUnpackBits(value: nat, n: nat)
    requires value < Pow2(n)
    ensures PackBits(UnpackBits(value, n)) == value
  {
    if n > 0 {
      var bits := UnpackBits(value, n);
      assert bits[..n - 1] == UnpackBits(value / 2, n - 1);
      PackUnpackBits(value / 2, n - 1);
    }
  }

  /// bit_unpack of a byte sequence: eight bits per byte, most significant bit first.
  function UnpackBytes(bytes: seq<Byte>): (bits: seq<Byte>)
    ensures |bits| == BitsPerByte * |bytes|
    ensures forall k :: 0 <= k < |bits| ==> bits[k] < 2
  {
    if bytes == [] then [] else UnpackBits(bytes[0], BitsPerByte) + UnpackBytes(bytes[1..])
  }

  /// Each byte comes back from its eight unpacked bits.
  lemma {:induction false} UnpackBytesRoundTrip(bytes: seq<Byte>, k: nat)
    requires k < |bytes|
    ensures PackBits(UnpackBytes(bytes)[BitsPerByte * k..BitsPerByte * (k + 1)]) == bytes[k]
  {
    var bits := UnpackBytes(bytes);
    if k == 0 {
      assert bits[..BitsPerByte] == UnpackBits(bytes[0], BitsPerByte);
      assert Pow2(BitsPerByte) == 256;
      PackUnpackBits(bytes[0], BitsPerByte);
    } else {
      UnpackBytesRoundTrip(bytes[1..], k - 1);
      assert bits[BitsPerByte * k..BitsPerByte * (k + 1)] ==
             UnpackBytes(bytes[1..])[BitsPerByte * (k - 1)..BitsPerByte * k];
    }
  }

  // ---------------------------------------------------------------------------
  // Segmentation parameters (section 5.2.2 of TS 38.212)
  // ---------------------------------------------------------------------------

  /// Transport-block CRC length of section 7.2.1: 16 bits up to 3824 payload bits, else 24.
  function TbCrcLength(nofTbBits: nat): nat {
    if nofTbBits <= 3824 then 16 else 24
  }

  /// K_cb: the largest code block of the base graph.
  function MaxSegmentLength(bg: BaseGraph): (kcb: nat)
    ensures kcb > SegCrcLength
  {
    if bg == BG1 then MaxBg1BlockLength else MaxBg2BlockLength
  }

  /// compute_nof_segments: the number of code blocks C.
  function NofSegments(b: nat, kcb: nat): nat
    requires kcb > SegCrcLength
  {
    if b <= kcb then 1 else DivideCeil(b, kcb - SegCrcLength)
  }

  /// compute_nof_segments: the number of bits B' once every code block has its CRC.
  function TbBitsOut(b: nat, kcb: nat): nat
    requires kcb > SegCrcLength
  {
    if b <= kcb then b else b + NofSegments(b, kcb) * SegCrcLength
  }

  /// C is the least number of code blocks that carry B bits when each block of a segmented
  /// transport block gives up 24 of its K_cb bits to its CRC; and B' fits in C blocks.
  lemma NofSegmentsLeast(b: nat, kcb: nat)
    requires kcb > SegCrcLength && b > 0
    ensures NofSegments(b, kcb) >= 1
    ensures b <= kcb ==> NofSegments(b, kcb) == 1 && TbBitsOut(b, kcb) == b
    ensures b > kcb ==> NofSegments(b, kcb) > 1 &&
                        NofSegments(b, kcb) * (kcb - SegCrcLength) >= b &&
                        (NofSegments(b, kcb) - 1) * (kcb - SegCrcLength) < b
    ensures TbBitsOut(b, kcb) <= NofSegments(b, kcb) * kcb
  {
    if b > kcb {
      var c := NofSegments(b, kcb);
      assert c * (kcb - SegCrcLength) >= b;
      assert c > 1;
      assert c * kcb == c * (kcb - SegCrcLength) + c * SegCrcLength;
    }
  }

  /// B' is B plus one CRC per block when there are several blocks.
  lemma TbBitsOutSplit(b: nat, kcb: nat)
    requires kcb > SegCrcLength && b > 0
    ensures TbBitsOut(b, kcb) == b + NofSegments(b, kcb) * SegmentCrcLength(NofSegments(b, kcb))
  {
    NofSegmentsLeast(b, kcb);
  }

  /// K_b of section 5.2.2: 22 for base graph 1; for base graph 2 it shrinks with B.
  function RefLength(bg: BaseGraph, b: nat): (kb: nat)
    ensures kb in {6, 8, 9, 10, 22}
  {
    if bg == BG1 then 22
    else if b > 640 then 10
    else if b > 560 then 9
    else if b > 192 then 8
    else 6
  }

  /// The first lifting size from index k on whose K_b-multiple covers the target, or 0:
  /// compute_lifting_size as section 5.2.2 asks for it, with Z_c * K_b >= K'.
  function LiftingSizeFrom(sizes: seq<nat>, total: nat, target: nat, k: nat): nat
    decreases |sizes| - k
  {
    if k >= |sizes| then 0
    else if sizes[k] * total >= target then sizes[k]
    else LiftingSizeFrom(sizes, total, target, k + 1)
  }

  /// compute_lifting_size as the source writes it: the first lifting size whose multiple
  /// strictly exceeds the target, or 0.
  function LiftingSizeAsWrittenFrom(sizes: seq<nat>, total: nat, target: nat, k: nat): nat
    decreases |sizes| - k
  {
    if k >= |sizes| then 0
    else if sizes[k] * total > target then sizes[k]
    else LiftingSizeAsWrittenFrom(sizes, total, target, k + 1)
  }

  predicate Ascending(sizes: seq<nat>) {
    forall j, k :: 0 <= j < k < |sizes| ==> sizes[j] < sizes[k]
  }

  lemma {:induction false} AdjacentAscending(sizes: seq<nat>, k: nat)
    requires forall m :: 0 < m < |sizes| ==> sizes[m - 1] < sizes[m]
    requires k <= |sizes|
    decreases |sizes| - k
    ensures forall j, m :: k <= j < m < |sizes| ==> sizes[j] < sizes[m]
  {
    if k < |sizes| {
      AdjacentAscending(sizes, k + 1);
      forall m | k < m < |sizes| ensures sizes[k] < sizes[m] {
        assert sizes[k] < sizes[k + 1];
      }
    }
  }

  lemma LiftingSizesAscending()
    ensures Ascending(AllLiftingSizes)
    ensures |AllLiftingSizes| == 51 && AllLiftingSizes[50] == 384
    ensures AllLiftingSizes[6] == 8 && AllLiftingSizes[7] == 9
  {
    var s := AllLiftingSizes;
    assert forall m :: 0 < m < |s| ==> s[m - 1] < s[m];
    AdjacentAscending(s, 0);
  }

  predicate Positive(sizes: seq<nat>) {
    forall j :: 0 <= j < |sizes| ==> sizes[j] > 0
  }

  /// On ascending positive sizes, the corrected search yields the least size whose multiple
  /// covers the target, and 0 exactly when none does.
  lemma {:induction false} LiftingSizeIsLeastFit(sizes: seq<nat>, total: nat, target: nat, k: nat)
    requires Ascending(sizes) && Positive(sizes) && k <= |sizes|
    decreases |sizes| - k
    ensures var z := LiftingSizeFrom(sizes, total, target, k);
      (z == 0 <==> forall j :: k <= j < |sizes| ==> sizes[j] * total < target) &&
      (z != 0 ==> (exists i :: k <= i < |sizes| && sizes[i] == z) && z * total >= target &&
                  forall j :: k <= j < |sizes| && sizes[j] * total >= target ==> z <= sizes[j])
  {
    if k < |sizes| {
      if sizes[k] * total >= target {
        assert sizes[k] == LiftingSizeFrom(sizes, total, target, k);
      } else {
        LiftingSizeIsLeastFit(sizes, total, target, k + 1);
      }
    }
  }

  /// The as-written search on ascending positive sizes yields the least size whose multiple
  /// exceeds the target, and 0 exactly when none does.
  lemma {:induction false} LiftingSizeAsWrittenIsLeastExceeding(sizes: seq<nat>, total: nat, target: nat, k: nat)
    requires Ascending(sizes) && Positive(sizes) && k <= |sizes|
    decreases |sizes| - k
    ensures var z := LiftingSizeAsWrittenFrom(sizes, total, target, k);
      (z == 0 <==> forall j :: k <= j < |sizes| ==> sizes[j] * total <= target) &&
      (z != 0 ==> (exists i :: k <= i < |sizes| && sizes[i] == z) && z * total > target &&
                  forall j :: k <= j < |sizes| && sizes[j] * total > target ==> z <= sizes[j])
  {
    if k < |sizes| {
      if sizes[k] * total > target {
        assert sizes[k] == LiftingSizeAsWrittenFrom(sizes, total, target, k);
      } else {
        LiftingSizeAsWrittenIsLeastExceeding(sizes, total, target, k + 1);
      }
    }
  }

  /// N_full - M columns of systematic and parity-free bits per lifting step.
  function BaseLength(bg: BaseGraph): (n: nat)
    ensures n >= RefLength(bg, 0) && forall b: nat :: n >= RefLength(bg, b)
  {
    if bg == BG1 then Bg1NFull - Bg1M else Bg2NFull - Bg2M
  }

  /// BG1 has rate 1/3 and BG2 rate 1/5.
  function InverseRate(bg: BaseGraph): nat {
    if bg == BG1 then 3 else 5
  }

  /// The CRC attached to each code block: 24 bits, and none when there is a single block.
  function SegmentCrcLength(c: nat): nat {
    if c > 1 then SegCrcLength else 0
  }

  /// The scalar quantities of one segmentation, as the members of the segmenter hold them
  /// (the CRC length per block and the information bits per block are locals of the source).
  datatype Plan = Plan(
    baseGraph: BaseGraph, tbBitsIn: nat, maxSegmentLength: nat, nofSegments: nat, tbBitsOut: nat,
    liftingSize: nat, segmentLength: nat, crcBits: nat, maxInfoBits: nat)

  /// The segmentation of a transport block of the given number of bytes.
  function PlanOf(bg: BaseGraph, nofTbBytes: nat): (p: Plan)
    requires nofTbBytes > 0
    ensures p.nofSegments >= 1
  {
    var tbBits := BitsPerByte * nofTbBytes;
    var b := tbBits + TbCrcLength(tbBits);
    var kcb := MaxSegmentLength(bg);
    MaxInfoBitsDefined(b, kcb);
    var c := NofSegments(b, kcb);
    var bOut := TbBitsOut(b, kcb);
    var zc := LiftingSizeFrom(AllLiftingSizes, c * RefLength(bg, b), bOut, 0);
    var crc := SegmentCrcLength(c);
    Plan(bg, b, kcb, c, bOut, zc, BaseLength(bg) * zc, crc, DivideCeil(bOut, c) - crc)
  }

  /// A plan whose quantities each follow from the ones before it, as section 5.2.2 derives
  /// them, is the segmentation of its transport block.
  lemma PlanOfIs(bg: BaseGraph, nofTbBytes: nat, p: Plan)
    requires nofTbBytes > 0 && p.baseGraph == bg
    requires p.tbBitsIn == BitsPerByte * nofTbBytes + TbCrcLength(BitsPerByte * nofTbBytes)
    requires p.maxSegmentLength == MaxSegmentLength(bg)
    requires p.nofSegments == NofSegments(p.tbBitsIn, p.maxSegmentLength)
    requires p.tbBitsOut == TbBitsOut(p.tbBitsIn, p.maxSegmentLength)
    requires p.liftingSize == LiftingSizeFrom(AllLiftingSizes, p.nofSegments * RefLength(bg, p.tbBitsIn), p.tbBitsOut, 0)
    requires p.segmentLength == BaseLength(bg) * p.liftingSize
    requires p.crcBits == SegmentCrcLength(p.nofSegments)
    requires p.maxInfoBits + p.crcBits == DivideCeil(p.tbBitsOut, p.nofSegments)
    ensures p == PlanOf(bg, nofTbBytes)
  {
  }

  /// ceil(B' / C) leaves room for the CRC of each block.
  lemma MaxInfoBitsDefined(b: nat, kcb: nat)
    requires kcb > SegCrcLength && b > 0
    ensures NofSegments(b, kcb) >= 1
    ensures DivideCeil(TbBitsOut(b, kcb), NofSegments(b, kcb)) >= SegmentCrcLength(NofSegments(b, kcb))
  {
    NofSegmentsLeast(b, kcb);
    var c := NofSegments(b, kcb);
    if c > 1 {
      var q := DivideCeil(TbBitsOut(b, kcb), c);
      assert TbBitsOut(b, kcb) >= SegCrcLength * c;
      QuotientAtLeast(q, c, SegCrcLength);
    }
  }

  /// What makes a segmentation usable: a nonzero lifting size, room in every block for its
  /// share of information bits and its CRC, and enough blocks for the whole buffer.
  predicate PlanWellFormed(p: Plan) {
    p.nofSegments >= 1 && p.liftingSize > 0 &&
    p.segmentLength >= p.maxInfoBits + p.crcBits &&
    InfoStart(p, p.nofSegments) == p.tbBitsIn
  }

  /// The largest lifting size always covers K' = B' / C, whatever the transport block.
  lemma LargestLiftingSizeFits(bg: BaseGraph, b: nat)
    requires b > 0
    ensures var kcb := MaxSegmentLength(bg);
      384 * (NofSegments(b, kcb) * RefLength(bg, b)) >= TbBitsOut(b, kcb)
  {
    var kcb := MaxSegmentLength(bg);
    NofSegmentsLeast(b, kcb);
    var c, kb := NofSegments(b, kcb), RefLength(bg, b);
    if c > 1 {
      assert kcb == 384 * kb;
      assert 384 * (c * kb) == c * kcb;
    }
  }

  /// The lifting size of a segmentation is a table entry whose multiple covers B'.
  lemma PlanLiftingSizeFits(bg: BaseGraph, nofTbBytes: nat)
    requires nofTbBytes > 0
    ensures var p := PlanOf(bg, nofTbBytes);
      p.liftingSize != 0 && p.liftingSize in AllLiftingSizes &&
      p.liftingSize * (p.nofSegments * RefLength(bg, p.tbBitsIn)) >= p.tbBitsOut
  {
    var p := PlanOf(bg, nofTbBytes);
    var total := p.nofSegments * RefLength(bg, p.tbBitsIn);
    LargestLiftingSizeFits(bg, p.tbBitsIn);
    LiftingSizesAscending();
    LiftingSizeIsLeastFit(AllLiftingSizes, total, p.tbBitsOut, 0);
  }

  /// C blocks of the segment length hold B'.
  lemma PlanSegmentsHoldTbBitsOut(bg: BaseGraph, nofTbBytes: nat)
    requires nofTbBytes > 0
    ensures var p := PlanOf(bg, nofTbBytes);
      p.segmentLength * p.nofSegments >= p.tbBitsOut
  {
    var p := PlanOf(bg, nofTbBytes);
    PlanLiftingSizeFits(bg, nofTbBytes);
    BlocksHold(BaseLength(bg), RefLength(bg, p.tbBitsIn), p.liftingSize, p.nofSegments, p.tbBitsOut);
  }

  lemma BlocksHold(base: nat, kb: nat, z: nat, c: nat, bits: nat)
    requires kb <= base && z * (c * kb) >= bits
    ensures (base * z) * c >= bits
  {
    MulMono(kb, base, z);
    MulMono(kb * z, base * z, c);
    assert (kb * z) * c == z * (c * kb);
  }

  /// With q = ceil(B' / C) and B' = B + C * L, the C blocks of q - L information bits hold B.
  lemma InfoShareHolds(c: nat, q: nat, crc: nat, b: nat, bOut: nat)
    requires q >= crc && q * c >= bOut && bOut == b + c * crc
    ensures c * (q - crc) >= b
  {
    MulDistrib(q - crc, crc, c);
  }

  /// Every segmentation of a non-empty transport block is well formed: in particular the
  /// lifting size is never 0 and the number of filler bits never negative.
  lemma PlanOfWellFormed(bg: BaseGraph, nofTbBytes: nat)
    requires nofTbBytes > 0
    ensures PlanWellFormed(PlanOf(bg, nofTbBytes))
  {
    var p := PlanOf(bg, nofTbBytes);
    PlanLiftingSizeFits(bg, nofTbBytes);
    PlanSegmentsHoldTbBitsOut(bg, nofTbBytes);
    TbBitsOutSplit(p.tbBitsIn, p.maxSegmentLength);
    PlanWellFormedWhen(p);
  }

  /// The arithmetic behind a well-formed plan: blocks that hold B' leave room for the
  /// information share, and C shares of max_info_bits cover B.
  lemma PlanWellFormedWhen(p: Plan)
    requires p.nofSegments >= 1 && p.liftingSize > 0
    requires p.segmentLength * p.nofSegments >= p.tbBitsOut
    requires p.maxInfoBits + p.crcBits == DivideCeil(p.tbBitsOut, p.nofSegments)
    requires p.tbBitsOut == p.tbBitsIn + p.nofSegments * p.crcBits
    ensures PlanWellFormed(p)
  {
    var c, q := p.nofSegments, DivideCeil(p.tbBitsOut, p.nofSegments);
    DivideCeilLeast(p.tbBitsOut, c, p.segmentLength);
    InfoShareHolds(c, q, p.crcBits, p.tbBitsIn, p.tbBitsOut);
    InfoStartClosedForm(p, c);
  }

  /// Start, in the buffer, of the information bits of segment k: each segment takes
  /// max_info_bits of what is left, or all of it when less is left.
  function InfoStart(p: Plan, k: nat): (start: nat)
    ensures start <= p.tbBitsIn
  {
    if k == 0 then 0
    else
      var prev := InfoStart(p, k - 1);
      if p.maxInfoBits <= p.tbBitsIn - prev then prev + p.maxInfoBits else p.tbBitsIn
  }

  lemma InfoStartStep(p: Plan, k: nat)
    ensures InfoStart(p, k) <= InfoStart(p, k + 1) <= InfoStart(p, k) + p.maxInfoBits
  {
  }

  /// Segment k starts at min(k * max_info_bits, B).
  lemma {:induction false} InfoStartClosedForm(p: Plan, k: nat)
    ensures InfoStart(p, k) == if k * p.maxInfoBits <= p.tbBitsIn then k * p.maxInfoBits else p.tbBitsIn
  {
    if k > 0 {
      InfoStartClosedForm(p, k - 1);
      MulSucc(k - 1, p.maxInfoBits);
      if (k - 1) * p.maxInfoBits > p.tbBitsIn {
        MulMono(k - 1, k, p.maxInfoBits);
      }
    }
  }

  /// The CRC bits that fill_segment appends to the information bits, if any.
  function CodeblockCrcBits(crc: CrcCalculator, info: seq<Byte>, nofCrcBits: nat): (bits: seq<Byte>)
    ensures |bits| == nofCrcBits
  {
    if nofCrcBits > 0 then UnpackBits(crc.calculateBit(info), nofCrcBits) else []
  }

  /// The rate-matched length E_r of segment i (section 5.4.2.1 of TS 38.212): the first
  /// nofShort segments get the rounded-down share of a layer's symbols, the others the
  /// rounded-up share, times the layers and the modulation order.
  function RmLength(symbolsPerLayer: nat, nofSegments: nat, nofShort: nat, iSeg: nat, nofLayers: nat, qm: nat): nat
    requires nofSegments > 0
  {
    SymbolsOfSegment(symbolsPerLayer, nofSegments, nofShort, iSeg) * nofLayers * qm
  }

  function SymbolsOfSegment(symbolsPerLayer: nat, nofSegments: nat, nofShort: nat, iSeg: nat): nat
    requires nofSegments > 0
  {
    if iSeg < nofShort then symbolsPerLayer / nofSegments else DivideCeil(symbolsPerLayer, nofSegments)
  }

  function SumSymbols(symbolsPerLayer: nat, nofSegments: nat, nofShort: nat, n: nat): nat
    requires nofSegments > 0
  {
    if n == 0 then 0
    else SumSymbols(symbolsPerLayer, nofSegments, nofShort, n - 1) +
         SymbolsOfSegment(symbolsPerLayer, nofSegments, nofShort, n - 1)
  }

  function SumRmLengths(symbolsPerLayer: nat, nofSegments: nat, nofShort: nat, nofLayers: nat, qm: nat, n: nat): nat
    requires nofSegments > 0
  {
    if n == 0 then 0
    else SumRmLengths(symbolsPerLayer, nofSegments, nofShort, nofLayers, qm, n - 1) +
         RmLength(symbolsPerLayer, nofSegments, nofShort, n - 1, nofLayers, qm)
  }

  /// The number of short segments the source computes: C - (S mod C).
  function NofShortSegments(symbolsPerLayer: nat, nofSegments: nat): nat
    requires nofSegments > 0
  {
    nofSegments - symbolsPerLayer % nofSegments
  }

  lemma {:induction false} SumSymbolsSplit(s: nat, c: nat, n: nat)
    requires c > 0 && n <= c
    ensures var short := NofShortSegments(s, c);
      SumSymbols(s, c, short, n) ==
        if n <= short then n * (s / c)
        else short * (s / c) + (n - short) * DivideCeil(s, c)
  {
    if n > 0 {
      SumSymbolsSplit(s, c, n - 1);
      var short := NofShortSegments(s, c);
      if n <= short {
        MulSucc(n - 1, s / c);
      } else if n - 1 > short {
        MulSucc(n - 1 - short, DivideCeil(s, c));
      }
    }
  }

  /// Rounding down for the short segments and up for the others shares out a layer's
  /// symbols exactly.
  lemma SymbolsShareExactly(s: nat, c: nat)
    requires c > 0
    ensures SumSymbols(s, c, NofShortSegments(s, c), c) == s
  {
    SumSymbolsSplit(s, c, c);
    DivideCeilByFloor(s, c);
    var f, r := s / c, s % c;
    assert s == c * f + r;
    ShareSum(c, f, r);
  }

  /// c - r shares of f and r shares of f + 1 make c * f + r.
  lemma ShareSum(c: nat, f: nat, r: nat)
    requires r <= c
    ensures (c - r) * f + r * (f + 1) == c * f + r
  {
    MulDistrib(c - r, r, f);
  }

  lemma {:induction false} SumRmLengthsScales(s: nat, c: nat, short: nat, layers: nat, qm: nat, n: nat)
    requires c > 0
    ensures SumRmLengths(s, c, short, layers, qm, n) == SumSymbols(s, c, short, n) * layers * qm
  {
    if n > 0 {
      SumRmLengthsScales(s, c, short, layers, qm, n - 1);
      var a, e := SumSymbols(s, c, short, n - 1), SymbolsOfSegment(s, c, short, n - 1);
      ScaleSum(a, e, layers, qm);
    }
  }

  lemma ScaleSum(a: nat, e: nat, l: nat, q: nat)
    ensures (a + e) * l * q == a * l * q + e * l * q
  {
    MulDistrib(a, e, l);
    MulDistrib(a * l, e * l, q);
  }

  /// The rate-matched lengths of the segments add up to the coded bits available on the
  /// channel: the symbols of all layers times the modulation order.
  lemma RmLengthsFillChannel(nofChSymbols: nat, nofLayers: nat, qm: nat, c: nat)
    requires nofLayers > 0 && nofChSymbols % nofLayers == 0 && c > 0
    ensures var s := nofChSymbols / nofLayers;
      SumRmLengths(s, c, NofShortSegments(s, c), nofLayers, qm, c) == nofChSymbols * qm
  {
    var s := nofChSymbols / nofLayers;
    SumRmLengthsScales(s, c, NofShortSegments(s, c), nofLayers, qm, c);
    SymbolsShareExactly(s, c);
    ExactDivision(nofChSymbols, nofLayers);
  }

  lemma ExactDivision(n: nat, d: nat)
    requires d > 0 && n % d == 0
    ensures (n / d) * d == n
  {
    assert n == d * (n / d) + n % d;
  }

  /// Rate-matched lengths differ by at most one symbol per layer between segments.
  lemma RmLengthsBalanced(s: nat, c: nat, layers: nat, qm: nat, i: nat, j: nat)
    requires c > 0 && i < j
    ensures var short := NofShortSegments(s, c);
      RmLength(s, c, short, i, layers, qm) <= RmLength(s, c, short, j, layers, qm) <=
      RmLength(s, c, short, i, layers, qm) + layers * qm
  {
    var short := NofShortSegments(s, c);
    var a, e := SymbolsOfSegment(s, c, short, i), SymbolsOfSegment(s, c, short, j);
    DivideCeilByFloor(s, c);
    assert a <= e <= a + 1;
    MulMono(a, e, layers);
    MulMono(a * layers, e * layers, qm);
    MulMono(e, a + 1, layers);
    MulMono(e * layers, (a + 1) * layers, qm);
    MulSucc(a, layers);
    MulDistrib(a * layers, layers, qm);
  }

  // ---------------------------------------------------------------------------
  // Lifting size as written (Z_c * K_b > K' instead of >=)
  // ---------------------------------------------------------------------------

  /// The lifting size compute_lifting_size picks with its strict comparison.
  function LiftingSizeAsWritten(bg: BaseGraph, nofTbBytes: nat): nat
    requires nofTbBytes > 0
  {
    var p := PlanOf(bg, nofTbBytes);
    LiftingSizeAsWrittenFrom(AllLiftingSizes, p.nofSegments * RefLength(bg, p.tbBitsIn), p.tbBitsOut, 0)
  }

  /// A 1053-byte transport block on base graph 1 fills one code block exactly
  /// (B = 8424 + 24 = 8448 = 22 * 384): the strict comparison finds no lifting size, so
  /// the segment length is 0 and cannot hold the 8448 bits; the corrected search picks 384.
  lemma LiftingSizeAsWrittenFailsOnFullBlock()
    ensures PlanOf(BG1, 1053).tbBitsOut == 8448 && PlanOf(BG1, 1053).nofSegments == 1
    ensures LiftingSizeAsWritten(BG1, 1053) == 0
    ensures BaseLength(BG1) * LiftingSizeAsWritten(BG1, 1053) < PlanOf(BG1, 1053).maxInfoBits
    ensures PlanOf(BG1, 1053).liftingSize == 384
  {
    var p := PlanOf(BG1, 1053);
    assert p.tbBitsIn == 8448 && p.nofSegments == 1 && p.tbBitsOut == 8448;
    LiftingSizesAscending();
    assert forall j :: 0 <= j < |AllLiftingSizes| ==> AllLiftingSizes[j] <= 384;
    LiftingSizeAsWrittenIsLeastExceeding(AllLiftingSizes, 22, 8448, 0);
    LiftingSizeIsLeastFit(AllLiftingSizes, 22, 8448, 0);
    assert AllLiftingSizes[50] * 22 >= 8448;
  }

  /// A 4-byte transport block on base graph 2 (B = 48, K_b = 6) needs Z_c = 8 by section
  /// 5.2.2, since 6 * 8 = 48 covers it; the strict comparison picks 9.
  lemma LiftingSizeAsWrittenOversizesSmallBlock()
    ensures PlanOf(BG2, 4).tbBitsOut == 48 && RefLength(BG2, 48) == 6
    ensures LiftingSizeAsWritten(BG2, 4) == 9
    ensures PlanOf(BG2, 4).liftingSize == 8
  {
    var p := PlanOf(BG2, 4);
    assert p.tbBitsIn == 48 && p.nofSegments == 1 && p.tbBitsOut == 48;
    LiftingSizesAscending();
    LiftingSizeAsWrittenIsLeastExceeding(AllLiftingSizes, 6, 48, 0);
    LiftingSizeIsLeastFit(AllLiftingSizes, 6, 48, 0);
    assert AllLiftingSizes[7] * 6 > 48;
    assert AllLiftingSizes[6] * 6 >= 48;
  }

  // ---------------------------------------------------------------------------
  // Transport-block CRC
  // ---------------------------------------------------------------------------

  /// The calculator of the transport-block CRC of section 7.2.1: CRC16 for payloads of up to
  /// 3824 bits, CRC24A otherwise.
  function TbCrcCalculator(crc16: CrcCalculator, crc24A: CrcCalculator, nofTbBits: nat): CrcCalculator {
    if nofTbBits <= 3824 then crc16 else crc24A
  }

  /// The buffer segment builds: the payload bits followed by the transport-block CRC bits.
  function TbBuffer(crc16: CrcCalculator, crc24A: CrcCalculator, tb: seq<Byte>): (buffer: seq<Byte>)
    ensures |buffer| == BitsPerByte * |tb| + TbCrcLength(BitsPerByte * |tb|)
  {
    var nofTbBits := BitsPerByte * |tb|;
    var crc := TbCrcCalculator(crc16, crc24A, nofTbBits);
    UnpackBytes(tb) + UnpackBits(crc.calculateByte(tb), TbCrcLength(nofTbBits))
  }

  /// The buffer as the source builds it: the CRC reference is bound to the CRC24A calculator
  /// and assigning the CRC16 calculator through it does not rebind it, so the CRC24A
  /// checksum is used in every case, truncated to 16 bits for short payloads.
  function TbBufferAsWritten(crc24A: CrcCalculator, tb: seq<Byte>): (buffer: seq<Byte>)
    ensures |buffer| == BitsPerByte * |tb| + TbCrcLength(BitsPerByte * |tb|)
  {
    var nofTbBits := BitsPerByte * |tb|;
    UnpackBytes(tb) + UnpackBits(crc24A.calculateByte(tb), TbCrcLength(nofTbBits))
  }

  /// The buffer gives back the transport block byte by byte, and its last L bits give back
  /// the checksum of section 7.2.1 when the checksum has L bits.
  lemma TbBufferRoundTrip(crc16: CrcCalculator, crc24A: CrcCalculator, tb: seq<Byte>, k: nat)
    requires k < |tb|
    ensures var buffer := TbBuffer(crc16, crc24A, tb);
      PackBits(buffer[BitsPerByte * k..BitsPerByte * (k + 1)]) == tb[k]
    ensures var nofTbBits := BitsPerByte * |tb|;
      var checksum := TbCrcCalculator(crc16, crc24A, nofTbBits).calculateByte(tb);
      checksum < Pow2(TbCrcLength(nofTbBits)) ==>
        PackBits(TbBuffer(crc16, crc24A, tb)[nofTbBits..]) == checksum
  {
    var buffer := TbBuffer(crc16, crc24A, tb);
    var nofTbBits := BitsPerByte * |tb|;
    var crc := TbCrcCalculator(crc16, crc24A, nofTbBits);
    UnpackBytesRoundTrip(tb, k);
    assert buffer[BitsPerByte * k..BitsPerByte * (k + 1)] == UnpackBytes(tb)[BitsPerByte * k..BitsPerByte * (k + 1)];
    assert buffer[nofTbBits..] == UnpackBits(crc.calculateByte(tb), TbCrcLength(nofTbBits));
    if crc.calculateByte(tb) < Pow2(TbCrcLength(nofTbBits)) {
      PackUnpackBits(crc.calculateByte(tb), TbCrcLength(nofTbBits));
    }
  }

  /// Length L of the CRC of each generator of section 5.1 of TS 38.212.
  function CrcLength(poly: CrcPoly): (len: nat)
    ensures 6 <= len <= 24
  {
    match poly
    case CRC24A => 24
    case CRC24B => 24
    case CRC24C => 24
    case CRC16 => 16
    case CRC11 => 11
    case CRC6 => 6
  }

  /// The generator polynomials of section 5.1, without their leading term D^L.
  function CrcGenerator(poly: CrcPoly): bv32 {
    match poly
    case CRC24A => 0x864CFB
    case CRC24B => 0x800063
    case CRC24C => 0xB2B117
    case CRC16 => 0x1021
    case CRC11 => 0x621
    case CRC6 => 0x21
  }

  /// One step of the bit-serial division: shift the next input bit in at the top.
  function CrcShift(reg: bv32, bit: bool, poly: CrcPoly): bv32 {
    var len := CrcLength(poly);
    var top := (reg >> (len - 1)) & 1 == 1;
    var shifted := (reg << 1) & (((1 as bv32) << len) - 1);
    if top != bit then shifted ^ CrcGenerator(poly) else shifted
  }

  /// The parity bits of section 5.1: the remainder of the bits times D^L divided by the
  /// generator, with a zero-initialised register.
  function CrcRegister(bits: seq<Byte>, poly: CrcPoly): bv32 {
    if bits == [] then 0
    else CrcShift(CrcRegister(bits[..|bits| - 1], poly), bits[|bits| - 1] % 2 == 1, poly)
  }

  /// A calculator that computes the CRCs of section 5.1.
  function StandardCrc(poly: CrcPoly): (crc: CrcCalculator)
    ensures crc.poly == poly
  {
    CrcCalculator(poly, bytes => CrcRegister(UnpackBytes(bytes), poly) as nat,
                  bits => CrcRegister(bits, poly) as nat)
  }

  lemma {:induction false} CrcOfZeros(n: nat, poly: CrcPoly)
    ensures CrcRegister(UnpackBits(0, n), poly) == 0
  {
    if n > 0 {
      var bits := UnpackBits(0, n);
      assert bits[..n - 1] == UnpackBits(0, n - 1);
      CrcOfZeros(n - 1, poly);
    }
  }

  /// Shifting a 1 into a cleared register leaves the generator in it.
  lemma CrcShiftOne(poly: CrcPoly)
    ensures CrcShift(0, true, poly) == CrcGenerator(poly)
  {
    match poly
    case CRC24A =>
    case CRC24B =>
    case CRC24C =>
    case CRC16 =>
    case CRC11 =>
    case CRC6 =>
  }

  lemma CrcRegisterSnoc(bits: seq<Byte>, b: Byte, poly: CrcPoly)
    ensures CrcRegister(bits + [b], poly) == CrcShift(CrcRegister(bits, poly), b % 2 == 1, poly)
  {
    assert (bits + [b])[..|bits|] == bits;
  }

  lemma UnpackOne()
    ensures UnpackBytes([1]) == UnpackBits(0, 7) + [1]
  {
    assert UnpackBytes([1]) == UnpackBits(1, 8);
  }

  /// The CRC of the single byte 0x01 is the generator itself.
  lemma CrcOfOne(poly: CrcPoly)
    ensures StandardCrc(poly).calculateByte([1]) == CrcGenerator(poly) as nat
  {
    UnpackOne();
    CrcRegisterSnoc(UnpackBits(0, 7), 1, poly);
    CrcOfZeros(7, poly);
    CrcShiftOne(poly);
  }

  /// For the one-byte transport block 0x01 the standard CRC16 is 0x1021 and the low 16 bits
  /// of the standard CRC24A are 0x4CFB: the buffers differ in their second-to-last bit.
  lemma TbCrcAsWrittenDiffers()
    ensures TbBufferAsWritten(StandardCrc(CRC24A), [1]) !=
            TbBuffer(StandardCrc(CRC16), StandardCrc(CRC24A), [1])
  {
    TbCrcAsWrittenDiffersOn([1]);
  }

  lemma TbCrcAsWrittenDiffersOn(tb: seq<Byte>)
    requires tb == [1]
    ensures TbBufferAsWritten(StandardCrc(CRC24A), tb) != TbBuffer(StandardCrc(CRC16), StandardCrc(CRC24A), tb)
  {
    UnpackedBitsDiffer(0x864CFB, 0x1021, 16);
    TbBufferChecksumBits(StandardCrc(CRC16), StandardCrc(CRC24A), tb);
    CrcOfOne(CRC16);
    CrcOfOne(CRC24A);
  }

  /// The last L bits of both buffers are the chosen checksum unpacked.
  lemma TbBufferChecksumBits(crc16: CrcCalculator, crc24A: CrcCalculator, tb: seq<Byte>)
    ensures var nofTbBits := BitsPerByte * |tb|;
      TbBuffer(crc16, crc24A, tb)[nofTbBits..] ==
        UnpackBits(TbCrcCalculator(crc16, crc24A, nofTbBits).calculateByte(tb), TbCrcLength(nofTbBits)) &&
      TbBufferAsWritten(crc24A, tb)[nofTbBits..] ==
        UnpackBits(crc24A.calculateByte(tb), TbCrcLength(nofTbBits))
  {
  }

  /// Values whose second-lowest bits differ unpack to different bit sequences.
  lemma UnpackedBitsDiffer(v: nat, w: nat, n: nat)
    requires n >= 2 && (v / 2) % 2 != (w / 2) % 2
    ensures UnpackBits(v, n) != UnpackBits(w, n)
  {
    assert UnpackBits(v, n)[n - 2] == UnpackBits(v / 2, n - 1)[n - 2] == (v / 2) % 2;
    assert UnpackBits(w, n)[n - 2] == UnpackBits(w / 2, n - 1)[n - 2] == (w / 2) % 2;
  }

  // ---------------------------------------------------------------------------
  // The segments
  // ---------------------------------------------------------------------------

  /// check_inputs: what segment asserts of its arguments.
  predicate InputsValid(described: seq<DescribedSegment>, tb: seq<Byte>, cfg: Config, maxTbs: nat) {
    described == [] &&
    |tb| > 0 &&
    |tb| * BitsPerByte + 24 <= maxTbs &&
    0 <= cfg.rv <= 3 &&
    1 <= cfg.nofLayers <= 4 &&
    cfg.nofChSymbols % cfg.nofLayers == 0
  }

  /// Valid inputs keep the transport block and its CRC within max_tbs bits, and share the
  /// channel symbols evenly among the layers.
  lemma InputsValidBounds(described: seq<DescribedSegment>, tb: seq<Byte>, cfg: Config, maxTbs: nat)
    requires InputsValid(described, tb, cfg, maxTbs)
    ensures PlanOf(cfg.baseGraph, |tb|).tbBitsIn <= maxTbs
    ensures (cfg.nofChSymbols / cfg.nofLayers) * cfg.nofLayers == cfg.nofChSymbols
  {
    ExactDivision(cfg.nofChSymbols, cfg.nofLayers);
  }

  /// The number of information bits of segment k.
  function InfoLength(p: Plan, k: nat): (n: nat)
    ensures n <= p.maxInfoBits && InfoStart(p, k) + n == InfoStart(p, k + 1)
  {
    InfoStartStep(p, k);
    InfoStart(p, k + 1) - InfoStart(p, k)
  }

  /// The information bits of segment k.
  function InfoPart(p: Plan, buffer: seq<Byte>, k: nat): (info: seq<Byte>)
    requires |buffer| == p.tbBitsIn
    ensures |info| == InfoLength(p, k)
  {
    buffer[InfoStart(p, k)..InfoStart(p, k) + InfoLength(p, k)]
  }

  /// The filler bits of segment k: what the segment length leaves after its information
  /// and CRC bits.
  function FillerLength(p: Plan, k: nat): (n: nat)
    requires PlanWellFormed(p)
    ensures n + InfoLength(p, k) + p.crcBits == p.segmentLength
  {
    p.segmentLength - InfoLength(p, k) - p.crcBits
  }

  /// The data of segment k: its information bits, their CRC24B if the block is one of
  /// several, and filler bits up to the segment length.
  function SegmentData(p: Plan, buffer: seq<Byte>, crc: CrcCalculator, fillerBit: Byte, k: nat): (data: seq<Byte>)
    requires PlanWellFormed(p) && |buffer| == p.tbBitsIn
    ensures |data| == p.segmentLength
  {
    var info := InfoPart(p, buffer, k);
    info + CodeblockCrcBits(crc, info, p.crcBits) + seq(FillerLength(p, k), _ => fillerBit)
  }

  /// The description of segment k handed to the encoder and the rate matcher.
  function SegmentDescription(p: Plan, cfg: Config, k: nat): CodeblockDescription
    requires PlanWellFormed(p) && cfg.nofLayers > 0
  {
    var symbolsPerLayer := cfg.nofChSymbols / cfg.nofLayers;
    CodeblockDescription(
      p.baseGraph, p.liftingSize, cfg.rv, cfg.mod, cfg.nref,
      p.segmentLength * InverseRate(p.baseGraph), FillerLength(p, k),
      RmLength(symbolsPerLayer, p.nofSegments, NofShortSegments(symbolsPerLayer, p.nofSegments),
               k, cfg.nofLayers, BitsPerSymbol(cfg.mod)))
  }

  /// Segment k as segment produces it.
  function ExpectedSegment(p: Plan, cfg: Config, buffer: seq<Byte>, crc: CrcCalculator, fillerBit: Byte, k: nat): DescribedSegment
    requires PlanWellFormed(p) && |buffer| == p.tbBitsIn && cfg.nofLayers > 0
  {
    DescribedSegment(SegmentData(p, buffer, crc, fillerBit, k), SegmentDescription(p, cfg, k))
  }

  function ExpectedSegments(p: Plan, cfg: Config, buffer: seq<Byte>, crc: CrcCalculator, fillerBit: Byte): (segs: seq<DescribedSegment>)
    requires PlanWellFormed(p) && |buffer| == p.tbBitsIn && cfg.nofLayers > 0
    ensures |segs| == p.nofSegments
  {
    seq(p.nofSegments, k requires 0 <= k < p.nofSegments => ExpectedSegment(p, cfg, buffer, crc, fillerBit, k))
  }

  lemma ExpectedSegmentsAt(p: Plan, cfg: Config, buffer: seq<Byte>, crc: CrcCalculator, fillerBit: Byte, k: nat)
    requires PlanWellFormed(p) && |buffer| == p.tbBitsIn && cfg.nofLayers > 0 && k < p.nofSegments
    ensures ExpectedSegments(p, cfg, buffer, crc, fillerBit)[k] == ExpectedSegment(p, cfg, buffer, crc, fillerBit, k)
  {
  }

  lemma PrefixStep<T>(s: seq<T>, i: nat)
    requires i < |s|
    ensures s[..i + 1] == s[..i] + [s[i]]
  {
  }

  /// What a receiver reads back from a segment: its data without the CRC and filler bits.
  function InfoBits(seg: DescribedSegment, crcBits: nat): seq<Byte> {
    var n := |seg.data| - crcBits - seg.description.nofFillerBits;
    if 0 <= n then seg.data[..n] else []
  }

  function Desegment(segs: seq<DescribedSegment>, crcBits: nat): seq<Byte> {
    if segs == [] then [] else Desegment(segs[..|segs| - 1], crcBits) + InfoBits(segs[|segs| - 1], crcBits)
  }

  lemma ExpectedSegmentParts(p: Plan, cfg: Config, buffer: seq<Byte>, crc: CrcCalculator, fillerBit: Byte, k: nat)
    requires PlanWellFormed(p) && |buffer| == p.tbBitsIn && cfg.nofLayers > 0
    ensures var info := InfoPart(p, buffer, k);
      var seg := ExpectedSegment(p, cfg, buffer, crc, fillerBit, k);
      var nofFiller := p.segmentLength - |info| - p.crcBits;
      var symbolsPerLayer := cfg.nofChSymbols / cfg.nofLayers;
      seg.data == info + CodeblockCrcBits(crc, info, p.crcBits) + seq(nofFiller, _ => fillerBit) &&
      seg.description == CodeblockDescription(
        p.baseGraph, p.liftingSize, cfg.rv, cfg.mod, cfg.nref,
        p.segmentLength * InverseRate(p.baseGraph), nofFiller,
        RmLength(symbolsPerLayer, p.nofSegments, NofShortSegments(symbolsPerLayer, p.nofSegments),
                 k, cfg.nofLayers, BitsPerSymbol(cfg.mod)))
  {
  }

  /// Each segment has the segment length, carries its information bits first and, when
  /// there are several blocks, a CRC24B over them right after.
  lemma ExpectedSegmentLayout(p: Plan, cfg: Config, buffer: seq<Byte>, crc: CrcCalculator, fillerBit: Byte, k: nat)
    requires PlanWellFormed(p) && |buffer| == p.tbBitsIn && cfg.nofLayers > 0
    ensures var seg := ExpectedSegment(p, cfg, buffer, crc, fillerBit, k);
      var info := InfoPart(p, buffer, k);
      |seg.data| == p.segmentLength &&
      InfoBits(seg, p.crcBits) == info &&
      seg.data[|info|..|info| + p.crcBits] == CodeblockCrcBits(crc, info, p.crcBits) &&
      (forall m :: |info| + p.crcBits <= m < |seg.data| ==> seg.data[m] == fillerBit)
  {
    var seg := ExpectedSegment(p, cfg, buffer, crc, fillerBit, k);
    var info := InfoPart(p, buffer, k);
    assert seg.data[..|info|] == info;
  }

  lemma {:induction false} DesegmentPrefix(p: Plan, buffer: seq<Byte>, segs: seq<DescribedSegment>, crcBits: nat, n: nat)
    requires |buffer| == p.tbBitsIn && n <= |segs|
    requires forall k :: 0 <= k < |segs| ==> InfoBits(segs[k], crcBits) == InfoPart(p, buffer, k)
    ensures Desegment(segs[..n], crcBits) == buffer[..InfoStart(p, n)]
  {
    if n > 0 {
      DesegmentPrefix(p, buffer, segs, crcBits, n - 1);
      DesegmentSnoc(segs, crcBits, n);
      BufferPrefixStep(p, buffer, n - 1);
    }
  }

  lemma DesegmentSnoc(segs: seq<DescribedSegment>, crcBits: nat, n: nat)
    requires 0 < n <= |segs|
    ensures Desegment(segs[..n], crcBits) == Desegment(segs[..n - 1], crcBits) + InfoBits(segs[n - 1], crcBits)
  {
    assert segs[..n][..n - 1] == segs[..n - 1];
  }

  lemma BufferPrefixStep(p: Plan, buffer: seq<Byte>, k: nat)
    requires |buffer| == p.tbBitsIn
    ensures buffer[..InfoStart(p, k + 1)] == buffer[..InfoStart(p, k)] + InfoPart(p, buffer, k)
  {
  }

  /// Stripping CRC and filler bits from the segments and joining what is left gives back the
  /// buffer: the segments carry the transport block and its CRC, in order, exactly once.
  lemma SegmentsReassemble(p: Plan, cfg: Config, buffer: seq<Byte>, crc: CrcCalculator, fillerBit: Byte)
    requires PlanWellFormed(p) && |buffer| == p.tbBitsIn && cfg.nofLayers > 0
    ensures Desegment(ExpectedSegments(p, cfg, buffer, crc, fillerBit), p.crcBits) == buffer
  {
    var segs := ExpectedSegments(p, cfg, buffer, crc, fillerBit);
    forall k | 0 <= k < |segs| ensures InfoBits(segs[k], p.crcBits) == InfoPart(p, buffer, k) {
      ExpectedSegmentsAt(p, cfg, buffer, crc, fillerBit, k);
      ExpectedSegmentLayout(p, cfg, buffer, crc, fillerBit, k);
    }
    DesegmentPrefix(p, buffer, segs, p.crcBits, p.nofSegments);
    assert segs[..p.nofSegments] == segs;
  }

  function SumOfRmLengths(segs: seq<DescribedSegment>): nat {
    if segs == [] then 0 else SumOfRmLengths(segs[..|segs| - 1]) + segs[|segs| - 1].description.rmLength
  }

  lemma {:induction false} SumOfRmLengthsPrefix(segs: seq<DescribedSegment>, s: nat, c: nat, layers: nat, qm: nat, n: nat)
    requires c > 0 && n <= |segs|
    requires forall k :: 0 <= k < |segs| ==> segs[k].description.rmLength == RmLength(s, c, NofShortSegments(s, c), k, layers, qm)
    ensures SumOfRmLengths(segs[..n]) == SumRmLengths(s, c, NofShortSegments(s, c), layers, qm, n)
  {
    if n > 0 {
      SumOfRmLengthsPrefix(segs, s, c, layers, qm, n - 1);
      assert segs[..n][..n - 1] == segs[..n - 1];
    }
  }

  /// The rate-matched lengths of the described segments use up exactly the coded bits the
  /// channel offers: nof_ch_symbols times the modulation order.
  lemma SegmentsFillChannel(p: Plan, cfg: Config, buffer: seq<Byte>, crc: CrcCalculator, fillerBit: Byte)
    requires PlanWellFormed(p) && |buffer| == p.tbBitsIn
    requires cfg.nofLayers > 0 && cfg.nofChSymbols % cfg.nofLayers == 0
    ensures SumOfRmLengths(ExpectedSegments(p, cfg, buffer, crc, fillerBit)) == cfg.nofChSymbols * BitsPerSymbol(cfg.mod)
  {
    var segs := ExpectedSegments(p, cfg, buffer, crc, fillerBit);
    var sym := cfg.nofChSymbols / cfg.nofLayers;
    forall k | 0 <= k < |segs|
      ensures segs[k].description.rmLength ==
              RmLength(sym, p.nofSegments, NofShortSegments(sym, p.nofSegments), k, cfg.nofLayers, BitsPerSymbol(cfg.mod))
    {
      ExpectedSegmentsAt(p, cfg, buffer, crc, fillerBit, k);
      ExpectedSegmentParts(p, cfg, buffer, crc, fillerBit, k);
    }
    SumOfRmLengthsPrefix(segs, sym, p.nofSegments, cfg.nofLayers, BitsPerSymbol(cfg.mod), p.nofSegments);
    assert segs[..p.nofSegments] == segs;
    RmLengthsFillChannel(cfg.nofChSymbols, cfg.nofLayers, BitsPerSymbol(cfg.mod), p.nofSegments);
  }

  /// fill_segment: copy the information bits, append their CRC when asked to, and pad with
  /// filler bits.
  method FillSegment(segment: array<Byte>, trBlock: seq<Byte>, crc: CrcCalculator, nofCrcBits: nat, nofFiller: nat, fillerBit: Byte)
    requires segment.Length == |trBlock| + nofCrcBits + nofFiller
    modifies segment
    ensures segment[..] == trBlock + CodeblockCrcBits(crc, trBlock, nofCrcBits) + seq(nofFiller, _ => fillerBit)
  {
    var k := 0;
    while k < |trBlock|
      invariant 0 <= k <= |trBlock|
      invariant forall m :: 0 <= m < k ==> segment[m] == trBlock[m]
    {
      segment[k] := trBlock[k];
      k := k + 1;
    }
    var crcBits := CodeblockCrcBits(crc, trBlock, nofCrcBits);
    var nofUsedBits := |trBlock|;
    if nofCrcBits > 0 {
      k := 0;
      while k < nofCrcBits
        invariant 0 <= k <= nofCrcBits
        invariant forall m :: 0 <= m < nofUsedBits ==> segment[m] == trBlock[m]
        invariant forall m :: nofUsedBits <= m < nofUsedBits + k ==> segment[m] == crcBits[m - nofUsedBits]
      {
        segment[nofUsedBits + k] := crcBits[k];
        k := k + 1;
      }
      nofUsedBits := nofUsedBits + nofCrcBits;
    }
    k := 0;
    while k < nofFiller
      invariant 0 <= k <= nofFiller
      invariant nofUsedBits == |trBlock| + nofCrcBits
      invariant forall m :: 0 <= m < |trBlock| ==> segment[m] == trBlock[m]
      invariant forall m :: |trBlock| <= m < nofUsedBits ==> segment[m] == crcBits[m - |trBlock|]
      invariant forall m :: nofUsedBits <= m < nofUsedBits + k ==> segment[m] == fillerBit
    {
      segment[nofUsedBits + k] := fillerBit;
      k := k + 1;
    }
    var want := trBlock + crcBits + seq(nofFiller, _ => fillerBit);
    assert forall m :: 0 <= m < segment.Length ==> segment[m] == want[m];
    assert segment[..] == want;
  }

  /// ldpc_segmenter_impl: the state of one segmenter, which segment overwrites on each call.
  class Segmenter {
    const crc16: CrcCalculator
    const crc24A: CrcCalculator
    const crc24B: CrcCalculator
    /// Largest transport block, CRC included, in bits.
    const maxTbs: nat
    /// The value written into filler positions.
    const fillerBit: Byte

    var baseGraph: BaseGraph
    var maxSegmentLength: nat
    var nofTbBitsIn: nat
    var nofTbBitsOut: nat
    var nofSegments: nat
    var liftingSize: nat
    var segmentLength: nat
    var nofAvailableCodedBits: nat
    var nofSymbolsPerLayer: nat
    var nofShortSegments: nat
    var buffer: seq<Byte>

    /// The constructor asserts that each calculator has the generator its role needs.
    constructor(c16: CrcCalculator, c24A: CrcCalculator, c24B: CrcCalculator, maxTbs: nat, fillerBit: Byte)
      requires c16.poly == CRC16 && c24A.poly == CRC24A && c24B.poly == CRC24B
      ensures crc16 == c16 && crc24A == c24A && crc24B == c24B
      ensures this.maxTbs == maxTbs && this.fillerBit == fillerBit
    {
      crc16 := c16;
      crc24A := c24A;
      crc24B := c24B;
      this.maxTbs := maxTbs;
      this.fillerBit := fillerBit;
      baseGraph := BG1;
      maxSegmentLength := 0;
      nofTbBitsIn := 0;
      nofTbBitsOut := 0;
      nofSegments := 0;
      liftingSize := 0;
      segmentLength := 0;
      nofAvailableCodedBits := 0;
      nofSymbolsPerLayer := 0;
      nofShortSegments := 0;
      buffer := [];
    }

    /// The segmenter's quantities are those of the given segmentation.
    ghost predicate HoldsPlan(p: Plan)
      reads this
    {
      baseGraph == p.baseGraph && nofTbBitsIn == p.tbBitsIn && maxSegmentLength == p.maxSegmentLength &&
      nofSegments == p.nofSegments && nofTbBitsOut == p.tbBitsOut &&
      liftingSize == p.liftingSize && segmentLength == p.segmentLength
    }

    method ComputeNofSegments()
      requires maxSegmentLength > SegCrcLength
      modifies this`nofSegments, this`nofTbBitsOut
      ensures nofSegments == NofSegments(nofTbBitsIn, maxSegmentLength)
      ensures nofTbBitsOut == TbBitsOut(nofTbBitsIn, maxSegmentLength)
    {
      if nofTbBitsIn <= maxSegmentLength {
        nofSegments := 1;
        nofTbBitsOut := nofTbBitsIn;
      } else {
        nofSegments := DivideCeil(nofTbBitsIn, maxSegmentLength - SegCrcLength);
        nofTbBitsOut := nofTbBitsIn + nofSegments * SegCrcLength;
      }
    }

    /// compute_lifting_size with the comparison of section 5.2.2 (Z_c * K_b >= K').
    method ComputeLiftingSize()
      modifies this`liftingSize
      ensures liftingSize == LiftingSizeFrom(AllLiftingSizes, nofSegments * RefLength(baseGraph, nofTbBitsIn), nofTbBitsOut, 0)
    {
      var refLength := 22;
      if baseGraph == BG2 {
        if nofTbBitsIn > 640 {
          refLength := 10;
        } else if nofTbBitsIn > 560 {
          refLength := 9;
        } else if nofTbBitsIn > 192 {
          refLength := 8;
        } else {
          refLength := 6;
        }
      }
      var totalRefLength := nofSegments * refLength;
      liftingSize := 0;
      var i := 0;
      while i < |AllLiftingSizes|
        invariant 0 <= i <= |AllLiftingSizes|
        invariant LiftingSizeFrom(AllLiftingSizes, totalRefLength, nofTbBitsOut, i) ==
                  LiftingSizeFrom(AllLiftingSizes, totalRefLength, nofTbBitsOut, 0)
      {
        if AllLiftingSizes[i] * totalRefLength >= nofTbBitsOut {
          liftingSize := AllLiftingSizes[i];
          return;
        }
        i := i + 1;
      }
    }

    method ComputeSegmentLength()
      modifies this`segmentLength
      ensures segmentLength == BaseLength(baseGraph) * liftingSize
    {
      var baseLength := if baseGraph == BG1 then Bg1NFull - Bg1M else Bg2NFull - Bg2M;
      segmentLength := baseLength * liftingSize;
    }

    /// One pass of the loop of segment: the information bits of code block iSegment, its
    /// CRC and filler bits, and its description.
    method FillCodeblock(ghost p: Plan, cfg: Config, iSegment: nat, inputIdx: nat, maxInfoBits: nat, nofCrcBits: nat)
      returns (segment: DescribedSegment, nofInfoBits: nat)
      requires PlanWellFormed(p) && HoldsPlan(p) && |buffer| == p.tbBitsIn
      requires nofCrcBits == p.crcBits && maxInfoBits == p.maxInfoBits
      requires cfg.nofLayers > 0 && nofSymbolsPerLayer == cfg.nofChSymbols / cfg.nofLayers
      requires nofShortSegments == NofShortSegments(nofSymbolsPerLayer, nofSegments)
      requires inputIdx == InfoStart(p, iSegment)
      ensures segment == ExpectedSegment(p, cfg, buffer, crc24B, fillerBit, iSegment)
      ensures inputIdx + nofInfoBits == InfoStart(p, iSegment + 1)
    {
      InfoStartStep(p, iSegment);
      var tmpData := new Byte[segmentLength];
      nofInfoBits := if maxInfoBits <= nofTbBitsIn - inputIdx then maxInfoBits else nofTbBitsIn - inputIdx;
      var nofFillerBits := segmentLength - nofInfoBits - nofCrcBits;
      var info := buffer[inputIdx..inputIdx + nofInfoBits];
      assert info == InfoPart(p, buffer, iSegment);
      FillSegment(tmpData, info, crc24B, nofCrcBits, nofFillerBits, fillerBit);

      var inverseRate := if baseGraph == BG1 then 3 else 5;
      var description := CodeblockDescription(
        baseGraph, liftingSize, cfg.rv, cfg.mod, cfg.nref,
        segmentLength * inverseRate, nofFillerBits,
        RmLength(nofSymbolsPerLayer, nofSegments, nofShortSegments, iSegment, cfg.nofLayers, BitsPerSymbol(cfg.mod)));
      ExpectedSegmentParts(p, cfg, buffer, crc24B, fillerBit, iSegment);
      segment := DescribedSegment(tmpData[..], description);
    }

    /// The start of segment: the base graph and its largest code block, and the transport
    /// block with its CRC unpacked into the buffer.
    method LoadTransportBlock(tb: seq<Byte>, cfg: Config)
      modifies this`baseGraph, this`maxSegmentLength, this`nofTbBitsIn, this`buffer, this`nofAvailableCodedBits
      ensures baseGraph == cfg.baseGraph && maxSegmentLength == MaxSegmentLength(baseGraph)
      ensures nofTbBitsIn == BitsPerByte * |tb| + TbCrcLength(BitsPerByte * |tb|)
      ensures buffer == TbBuffer(crc16, crc24A, tb)
      ensures nofAvailableCodedBits == cfg.nofChSymbols * BitsPerSymbol(cfg.mod)
    {
      baseGraph := cfg.baseGraph;
      maxSegmentLength := if baseGraph == BG1 then MaxBg1BlockLength else MaxBg2BlockLength;
      var nofTbBitsTmp := |tb| * BitsPerByte;
      var tbCrc := crc24A;
      var nofTbCrcBits := 24;
      if nofTbBitsTmp <= 3824 {
        tbCrc := crc16;
        nofTbCrcBits := 16;
      }
      nofTbBitsIn := nofTbBitsTmp + nofTbCrcBits;
      var tbChecksum := tbCrc.calculateByte(tb);
      buffer := UnpackBytes(tb) + UnpackBits(tbChecksum, nofTbCrcBits);
      nofAvailableCodedBits := cfg.nofChSymbols * BitsPerSymbol(cfg.mod);
    }

    /// The CRC bits each block carries and the information bits each block takes at most:
    /// ceil(B' / C) less the CRC.
    method ComputeInfoShare() returns (nofCrcBits: nat, maxInfoBits: nat)
      requires maxSegmentLength > SegCrcLength && nofTbBitsIn > 0
      requires nofSegments == NofSegments(nofTbBitsIn, maxSegmentLength)
      requires nofTbBitsOut == TbBitsOut(nofTbBitsIn, maxSegmentLength)
      ensures nofCrcBits == SegmentCrcLength(nofSegments)
      ensures maxInfoBits + nofCrcBits == DivideCeil(nofTbBitsOut, nofSegments)
    {
      nofCrcBits := 0;
      if nofSegments > 1 {
        nofCrcBits := SegCrcLength;
      }
      MaxInfoBitsDefined(nofTbBitsIn, maxSegmentLength);
      maxInfoBits := DivideCeil(nofTbBitsOut, nofSegments) - nofCrcBits;
    }

    /// The channel symbols of one layer, and how many segments get the rounded-down share.
    method ComputeSymbolShares(cfg: Config)
      requires cfg.nofLayers > 0 && nofSegments > 0
      modifies this`nofSymbolsPerLayer, this`nofShortSegments
      ensures nofSymbolsPerLayer == cfg.nofChSymbols / cfg.nofLayers
      ensures nofShortSegments == NofShortSegments(nofSymbolsPerLayer, nofSegments)
    {
      nofSymbolsPerLayer := cfg.nofChSymbols / cfg.nofLayers;
      nofShortSegments := nofSegments - nofSymbolsPerLayer % nofSegments;
    }

    /// The first part of segment: the transport block loaded, and the quantities of the
    /// segmentation computed from its length.
    method Prepare(tb: seq<Byte>, cfg: Config) returns (ghost p: Plan, nofCrcBits: nat, maxInfoBits: nat)
      requires InputsValid([], tb, cfg, maxTbs)
      modifies this
      ensures p == PlanOf(cfg.baseGraph, |tb|) && PlanWellFormed(p) && HoldsPlan(p)
      ensures buffer == TbBuffer(crc16, crc24A, tb)
      ensures nofCrcBits == p.crcBits && maxInfoBits == p.maxInfoBits
      ensures nofAvailableCodedBits == cfg.nofChSymbols * BitsPerSymbol(cfg.mod)
      ensures nofSymbolsPerLayer == cfg.nofChSymbols / cfg.nofLayers
      ensures nofShortSegments == NofShortSegments(nofSymbolsPerLayer, nofSegments)
    {
      LoadTransportBlock(tb, cfg);
      ComputeNofSegments();
      ComputeLiftingSize();
      ComputeSegmentLength();
      nofCrcBits, maxInfoBits := ComputeInfoShare();
      p := Plan(baseGraph, nofTbBitsIn, maxSegmentLength, nofSegments, nofTbBitsOut,
                liftingSize, segmentLength, nofCrcBits, maxInfoBits);
      PlanOfIs(cfg.baseGraph, |tb|, p);
      PlanOfWellFormed(cfg.baseGraph, |tb|);
      ComputeSymbolShares(cfg);
    }

    /// The loop of segment: every code block in turn, each taking its information bits from
    /// where the previous one stopped.
    method FillCodeblocks(ghost p: Plan, cfg: Config, maxInfoBits: nat, nofCrcBits: nat)
      returns (blocks: seq<DescribedSegment>)
      requires PlanWellFormed(p) && HoldsPlan(p) && |buffer| == p.tbBitsIn
      requires nofCrcBits == p.crcBits && maxInfoBits == p.maxInfoBits
      requires cfg.nofLayers > 0 && nofSymbolsPerLayer == cfg.nofChSymbols / cfg.nofLayers
      requires nofShortSegments == NofShortSegments(nofSymbolsPerLayer, nofSegments)
      ensures blocks == ExpectedSegments(p, cfg, buffer, crc24B, fillerBit)
    {
      var inputIdx := 0;
      var iSegment := 0;
      ghost var expected := ExpectedSegments(p, cfg, buffer, crc24B, fillerBit);
      blocks := [];
      while iSegment != nofSegments
        invariant 0 <= iSegment <= nofSegments
        invariant inputIdx == InfoStart(p, iSegment)
        invariant blocks == expected[..iSegment]
        decreases nofSegments - iSegment
      {
        var segment, nofInfoBits := FillCodeblock(p, cfg, iSegment, inputIdx, maxInfoBits, nofCrcBits);
        inputIdx := inputIdx + nofInfoBits;
        ExpectedSegmentsAt(p, cfg, buffer, crc24B, fillerBit, iSegment);
        PrefixStep(expected, iSegment);
        blocks := blocks + [segment];
        iSegment := iSegment + 1;
      }
      assert expected[..iSegment] == expected;
    }

    /// segment: split the transport block and its CRC into code blocks of section 5.2.2 and
    /// describe each, after those already described, for the encoder and the rate matcher.
    method Segment(described: seq<DescribedSegment>, tb: seq<Byte>, cfg: Config) returns (segments: seq<DescribedSegment>)
      requires InputsValid(described, tb, cfg, maxTbs)
      modifies this
      ensures HoldsPlan(PlanOf(cfg.baseGraph, |tb|))
      ensures buffer == TbBuffer(crc16, crc24A, tb)
      ensures nofAvailableCodedBits == cfg.nofChSymbols * BitsPerSymbol(cfg.mod)
      ensures nofSymbolsPerLayer == cfg.nofChSymbols / cfg.nofLayers
      ensures nofShortSegments == NofShortSegments(nofSymbolsPerLayer, nofSegments)
      ensures PlanWellFormed(PlanOf(cfg.baseGraph, |tb|))
      ensures segments == described + ExpectedSegments(PlanOf(cfg.baseGraph, |tb|), cfg, buffer, crc24B, fillerBit)
    {
      ghost var p;
      var nofCrcBits, maxInfoBits;
      p, nofCrcBits, maxInfoBits := Prepare(tb, cfg);
      var blocks := FillCodeblocks(p, cfg, maxInfoBits, nofCrcBits);
      segments := described + blocks;
    }
  }
}
