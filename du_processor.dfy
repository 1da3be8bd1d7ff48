// The CU-CP view of one DU: F1 Setup (section 8.2.3 of 3GPP TS 38.473) installs the DU's
// served cells, and UE creation, UE context release and the UE count manage the UE table
// that the DU processor keeps for that DU.

module CuCpDuProcessor {

  /// A C-RNTI; 0 is not a valid RNTI.
  type Rnti = nat
  const InvalidRnti: Rnti := 0

  /// The NR cell identity a served cell is known by.
  type CellId = nat

  /// ue_index_t: an index into the UE table, or the invalid index.
  datatype UeIndex = Index(value: nat) | InvalidUeIndex

  /// A served cell of an F1 Setup Request; the system information is optional in the message.
  datatype ServedCell = ServedCell(cellId: CellId, hasSysInfo: bool)

  /// An F1 Setup Request reduced to its served-cells list; an absent list is an empty one.
  datatype F1SetupRequest = F1SetupRequest(servedCells: seq<ServedCell>)

  datatype F1SetupFailureCause = ServedCellsMissing | TooManyCells | SysInfoMissing

  /// What the DU processor sends back: an F1 Setup Response or an F1 Setup Failure.
  datatype F1SetupOutcome = F1SetupResponse | F1SetupFailure(cause: F1SetupFailureCause)

  datatype UeCreationRequest = UeCreationRequest(cRnti: Rnti, cellId: CellId)

  /// A UE in the table: its C-RNTI and the served cell it was created on.
  datatype UeContext = UeContext(cRnti: Rnti, pcellId: CellId)

  /// The verdict on an F1 Setup Request: a missing served-cells list, then too many cells,
  /// then a cell without system information is rejected; anything else is accepted.
  function F1SetupVerdict(cells: seq<ServedCell>, maxCells: nat): (outcome: F1SetupOutcome)
    ensures outcome == F1SetupResponse <==>
              0 < |cells| <= maxCells && forall k :: 0 <= k < |cells| ==> cells[k].hasSysInfo
    ensures outcome == F1SetupFailure(ServedCellsMissing) <==> |cells| == 0
    ensures outcome == F1SetupFailure(TooManyCells) <==> |cells| > maxCells
  {
    if |cells| == 0 then F1SetupFailure(ServedCellsMissing)
    else if |cells| > maxCells then F1SetupFailure(TooManyCells)
    else if exists k :: 0 <= k < |cells| && !cells[k].hasSysInfo then F1SetupFailure(SysInfoMissing)
    else F1SetupResponse
  }

  /// The cell ids of a served-cells list, in order.
  function CellIds(cells: seq<ServedCell>): (ids: seq<CellId>)
    ensures |ids| == |cells| && forall k :: 0 <= k < |cells| ==> ids[k] == cells[k].cellId
  {
    if cells == [] then [] else [cells[0].cellId] + CellIds(cells[1..])
  }

  /// Some UE of the table holds the RNTI.
  predicate RntiInUse(ues: map<nat, UeContext>, rnti: Rnti) {
    exists i :: i in ues && ues[i].cRnti == rnti
  }

  /// A UE creation request is accepted exactly when its RNTI is valid, its cell was installed
  /// by F1 Setup, no UE holds its RNTI yet and the table is below its capacity.
  predicate Admissible(cells: seq<CellId>, ues: map<nat, UeContext>, maxUes: nat, req: UeCreationRequest) {
    req.cRnti != InvalidRnti && req.cellId in cells && !RntiInUse(ues, req.cRnti) && |ues| < maxUes
  }

  /// A set of indices below n has at most n elements.
  lemma {:induction false} BoundedIndicesSize(s: set<nat>, n: nat)
    requires forall k :: k in s ==> k < n
    ensures |s| <= n
  {
    if n > 0 {
      BoundedIndicesSize(s - {n - 1}, n - 1);
    } else {
      assert s == {};
    }
  }

  /// A set of indices below n that holds every index below n has exactly n elements.
  lemma {:induction false} AllIndicesTakenSize(s: set<nat>, n: nat)
    requires forall k :: k in s ==> k < n
    requires forall k :: 0 <= k < n ==> k in s
    ensures |s| == n
  {
    if n > 0 {
      AllIndicesTakenSize(s - {n - 1}, n - 1);
    } else {
      assert s == {};
    }
  }

  /// Indices below n: the set has fewer than n elements exactly when some index below n is free.
  lemma FreeIndexExists(s: set<nat>, n: nat)
    requires forall k :: k in s ==> k < n
    ensures |s| < n <==> exists j :: 0 <= j < n && j !in s
  {
    if j :| 0 <= j < n && j !in s {
      BoundedIndicesSize(s + {j}, n);
    } else {
      AllIndicesTakenSize(s, n);
    }
  }

  /// The lowest index below n that is not in use, or none when all n are taken.
  method FindFreeIndex(used: set<nat>, n: nat) returns (r: UeIndex)
    ensures r.Index? ==> r.value < n && r.value !in used && forall j :: 0 <= j < r.value ==> j in used
    ensures r == InvalidUeIndex ==> forall j :: 0 <= j < n ==> j in used
  {
    var i := 0;
    while i < n && i in used
      invariant 0 <= i <= n
      invariant forall j :: 0 <= j < i ==> j in used
    {
      i := i + 1;
    }
    r := if i < n then Index(i) else InvalidUeIndex;
  }

  class DuProcessor {
    /// MAX_NOF_UES_PER_DU and the largest number of cells an F1 Setup may serve.
    const maxUes: nat
    const maxCells: nat
    /// The cell ids installed by the last successful F1 Setup.
    var cells: seq<CellId>
    /// The UE table, keyed by UE index.
    var ues: map<nat, UeContext>

    /// Indices stay below the capacity, and every UE holds a valid RNTI of its own.
    ghost predicate Valid()
      reads this
    {
      (forall i :: i in ues ==> i < maxUes) &&
      (forall i :: i in ues ==> ues[i].cRnti != InvalidRnti) &&
      (forall i, j :: i in ues && j in ues && i != j ==> ues[i].cRnti != ues[j].cRnti)
    }

    constructor (maxUes: nat, maxCells: nat)
      ensures Valid()
      ensures this.maxUes == maxUes && this.maxCells == maxCells
      ensures cells == [] && ues == map[]
    {
      this.maxUes := maxUes;
      this.maxCells := maxCells;
      cells := [];
      ues := map[];
    }

    /// get_nof_ues: never more than the capacity.
    function NofUes(): (n: nat)
      reads this
      requires Valid()
      ensures n <= maxUes
      ensures n == 0 <==> ues == map[]
    {
      BoundedIndicesSize(ues.Keys, maxUes);
      |ues|
    }

    /// handle_f1_setup_request: on success the served cells are installed; a failure leaves
    /// the DU processor as it was. The UE table is untouched either way.
    method HandleF1SetupRequest(req: F1SetupRequest) returns (outcome: F1SetupOutcome)
      requires Valid()
      modifies this`cells
      ensures Valid()
      ensures outcome == F1SetupVerdict(req.servedCells, maxCells)
      ensures cells == if outcome == F1SetupResponse then CellIds(req.servedCells) else old(cells)
    {
      outcome := F1SetupVerdict(req.servedCells, maxCells);
      if outcome == F1SetupResponse {
        cells := CellIds(req.servedCells);
      }
    }

    /// handle_ue_creation_request: an admissible request gets the lowest free index and a new
    /// UE; any other gets the invalid index and changes nothing.
    method HandleUeCreationRequest(req: UeCreationRequest) returns (idx: UeIndex)
      requires Valid()
      modifies this`ues
      ensures Valid()
      ensures idx.Index? <==> Admissible(cells, old(ues), maxUes, req)
      ensures idx.Index? ==> idx.value !in old(ues) && ues == old(ues)[idx.value := UeContext(req.cRnti, req.cellId)]
      ensures idx.Index? ==> forall j :: 0 <= j < idx.value ==> j in old(ues)
      ensures idx == InvalidUeIndex ==> ues == old(ues)
    {
      FreeIndexExists(ues.Keys, maxUes);
      if req.cRnti == InvalidRnti || req.cellId !in cells || RntiInUse(ues, req.cRnti) {
        return InvalidUeIndex;
      }
      idx := FindFreeIndex(ues.Keys, maxUes);
      if idx.Index? {
        ues := ues[idx.value := UeContext(req.cRnti, req.cellId)];
      }
    }

    /// handle_ue_context_release_command: the UE of the index is removed. An index without a
    /// UE is reported (`found` is false, the invalid-index report) and changes nothing.
    method HandleUeContextReleaseCommand(ueIndex: nat) returns (found: bool)
      requires Valid()
      modifies this`ues
      ensures Valid()
      ensures found <==> ueIndex in old(ues)
      ensures ues == old(ues) - {ueIndex}
    {
      found := ueIndex in ues;
      ues := ues - {ueIndex};
    }
  }

  /// The cell of the test F1 Setup Request.
  const TestCellId: CellId := 12345678

  /// The F1 Setup Request of the tests: one served cell with system information.
  const ValidF1Setup := F1SetupRequest([ServedCell(TestCellId, true)])

  /// The three rejected F1 Setup Requests of the tests, and the accepted one.
  lemma F1SetupVerdictExamples(maxCells: nat)
    requires maxCells >= 1
    ensures F1SetupVerdict(ValidF1Setup.servedCells, maxCells) == F1SetupResponse
    ensures F1SetupVerdict([], maxCells) == F1SetupFailure(ServedCellsMissing)
    ensures F1SetupVerdict([ServedCell(TestCellId, false)], maxCells) == F1SetupFailure(SysInfoMissing)
    ensures F1SetupVerdict(seq(maxCells + 1, _ => ServedCell(TestCellId, true)), maxCells) == F1SetupFailure(TooManyCells)
  {
    assert ![ServedCell(TestCellId, false)][0].hasSysInfo;
  }

  /// A DU processor after the valid F1 Setup of the tests.
  method SetUpDu(maxUes: nat, maxCells: nat) returns (du: DuProcessor)
    requires maxCells >= 1
    ensures fresh(du) && du.Valid()
    ensures du.maxUes == maxUes && du.maxCells == maxCells
    ensures du.cells == [TestCellId] && du.ues == map[]
  {
    du := new DuProcessor(maxUes, maxCells);
    var outcome := du.HandleF1SetupRequest(ValidF1Setup);
  }

  /// UE creation after a valid F1 Setup: a valid request is admitted; an unknown cell or the
  /// invalid RNTI is refused; the same request again is refused as a duplicate RNTI.
  method UeCreationScenario(maxUes: nat, maxCells: nat, minCrnti: Rnti)
    returns (unknownCell: UeIndex, invalidRnti: UeIndex, countAfterRefusals: nat,
             first: UeIndex, duplicate: UeIndex, count: nat)
    requires maxUes >= 1 && maxCells >= 1 && minCrnti != InvalidRnti
    ensures unknownCell == InvalidUeIndex && invalidRnti == InvalidUeIndex && countAfterRefusals == 0
    ensures first == Index(0) && duplicate == InvalidUeIndex && count == 1
  {
    var du := SetUpDu(maxUes, maxCells);
    unknownCell := du.HandleUeCreationRequest(UeCreationRequest(minCrnti, 1));
    invalidRnti := du.HandleUeCreationRequest(UeCreationRequest(InvalidRnti, TestCellId));
    countAfterRefusals := du.NofUes();
    first := du.HandleUeCreationRequest(UeCreationRequest(minCrnti, TestCellId));
    duplicate := du.HandleUeCreationRequest(UeCreationRequest(minCrnti, TestCellId));
    assert RntiInUse(du.ues, minCrnti) by {
      assert du.ues[0].cRnti == minCrnti;
    }
    count := du.NofUes();
  }

  /// The table holds indices 0 to n - 1, and index j holds RNTI j + 1.
  ghost predicate FilledUpTo(ues: map<nat, UeContext>, n: nat) {
    (forall j: nat :: j in ues <==> j < n) && forall j :: j in ues ==> ues[j].cRnti == j + 1
  }

  /// Such a table has n UEs, and RNTI n + 1 is still free.
  lemma FilledUpToSize(ues: map<nat, UeContext>, n: nat)
    requires FilledUpTo(ues, n)
    ensures |ues| == n && !RntiInUse(ues, n + 1)
  {
    AllIndicesTakenSize(ues.Keys, n);
  }

  /// Creates the UEs with RNTIs 1 to maxUes on the test cell, one after the other, as the
  /// loops of the tests do; each gets the next index.
  method FillDu(du: DuProcessor) returns (allAdmitted: bool)
    requires du.Valid() && TestCellId in du.cells && du.ues == map[]
    modifies du`ues
    ensures du.Valid() && allAdmitted
    ensures FilledUpTo(du.ues, du.maxUes)
  {
    allAdmitted := true;
    var i := 0;
    while i < du.maxUes
      invariant 0 <= i <= du.maxUes && du.Valid() && allAdmitted
      invariant FilledUpTo(du.ues, i)
    {
      FilledUpToSize(du.ues, i);
      assert i !in du.ues;
      ghost var before := du.ues;
      var idx := du.HandleUeCreationRequest(UeCreationRequest(i + 1, TestCellId));
      allAdmitted := allAdmitted && idx.Index?;
      assert idx == Index(i) by {
        assert idx.value !in before;
        assert idx.value > i ==> i in before;
      }
      i := i + 1;
    }
  }

  /// All maxUes creations succeed, the next one is refused and the count stays at maxUes.
  method MaxUesScenario(maxUes: nat, maxCells: nat) returns (allAdmitted: bool, extra: UeIndex, count: nat)
    requires maxCells >= 1
    ensures allAdmitted && extra == InvalidUeIndex && count == maxUes
  {
    var du := SetUpDu(maxUes, maxCells);
    allAdmitted := FillDu(du);
    FilledUpToSize(du.ues, maxUes);
    extra := du.HandleUeCreationRequest(UeCreationRequest(maxUes + 1, TestCellId));
    count := du.NofUes();
  }

  /// The first UE gets index 0, and releasing index 0 finds it and leaves no UE.
  method ReleaseScenario(maxUes: nat, maxCells: nat, minCrnti: Rnti) returns (first: UeIndex, released: bool, count: nat)
    requires maxUes >= 1 && maxCells >= 1 && minCrnti != InvalidRnti
    ensures first == Index(0) && released && count == 0
  {
    var du := SetUpDu(maxUes, maxCells);
    first := du.HandleUeCreationRequest(UeCreationRequest(minCrnti, TestCellId));
    released := du.HandleUeContextReleaseCommand(0);
    count := du.NofUes();
  }

  /// From a full table, releasing index 0 frees one place, which a fresh RNTI then takes:
  /// the count goes to maxUes - 1 and back to maxUes, and the new UE reuses index 0.
  method ReuseScenario(maxUes: nat, maxCells: nat) returns (afterRelease: nat, reused: UeIndex, count: nat)
    requires maxUes >= 1 && maxCells >= 1
    ensures afterRelease == maxUes - 1 && reused == Index(0) && count == maxUes
  {
    var du := SetUpDu(maxUes, maxCells);
    var allAdmitted := FillDu(du);
    FilledUpToSize(du.ues, maxUes);
    ghost var full := du.ues;
    var released := du.HandleUeContextReleaseCommand(0);
    assert |du.ues| == maxUes - 1 by {
      assert du.ues.Keys == full.Keys - {0};
    }
    afterRelease := du.NofUes();
    assert !RntiInUse(du.ues, maxUes + 1);
    reused := du.HandleUeCreationRequest(UeCreationRequest(maxUes + 1, TestCellId));
    assert du.ues.Keys == full.Keys;
    count := du.NofUes();
  }
}
