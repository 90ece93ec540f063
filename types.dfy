/** The workshop's data model: the repair stages and their fixed order, the
    staff roles, the stage-history log of a task, the repair task itself and
    the table of which roles may close which stage. */
module Types {
  import opened Seqs

  datatype Option<T> = None | Some(value: T)

  /** The five workflow stages; the source labels them 定损, 钣金, 喷漆, 交车, 已完工. */
  datatype Stage = Assessment | Metalwork | Painting | Delivery | Finished

  datatype Role = Consultant | Metalworker | Painter | Manager | SpareParts

  /** One interval of a task in one stage; `endTime` is absent while the interval is open. */
  datatype StageHistory = StageHistory(stage: Stage, startTime: int, endTime: Option<int>, handler: string)

  /** Times are epoch milliseconds; `assessmentAmount` is in currency units. */
  datatype RepairTask = RepairTask(
    id: string,
    licensePlate: string,
    contactPerson: string,
    insuranceCompany: string,
    assessmentAmount: int,
    expectedDeliveryTime: int,
    currentStage: Stage,
    isSparePartsReady: bool,
    remarks: string,
    createdAt: int,
    history: seq<StageHistory>)

  datatype Staff = Staff(id: string, name: string, role: Role)

  /** The fixed order in which a task moves through the workshop. */
  const StageOrder: seq<Stage> := [Assessment, Metalwork, Painting, Delivery, Finished]

  /** The position of each stage in the order. */
  function Position(s: Stage): nat
  {
    match s
    case Assessment => 0
    case Metalwork => 1
    case Painting => 2
    case Delivery => 3
    case Finished => 4
  }

  /** `STAGE_ORDER.indexOf(s)` finds every stage, at its position. */
  lemma IndexOfStage(s: Stage)
    ensures IndexOf(StageOrder, s) == Position(s)
    ensures StageOrder[Position(s)] == s
  {
    var k := IndexOf(StageOrder, s);
    assert StageOrder[Position(s)] == s;
    assert k != -1;
    assert StageOrder[k] == s;
  }

  /** The stage after `s` in the order, looked up with `indexOf` as the
      source does; FINISHED, the last, has none. */
  function NextStage(s: Stage): (r: Option<Stage>)
    ensures r.None? <==> s == Finished
    ensures r.Some? ==> Position(r.value) == Position(s) + 1
  {
    IndexOfStage(s);
    var idx := IndexOf(StageOrder, s);
    if idx < |StageOrder| - 1 then
      IndexOfStage(StageOrder[idx + 1]);
      Some(StageOrder[idx + 1])
    else None
  }

  /** The roles allowed to close (advance out of) each stage, in the source's order. */
  function Permissions(s: Stage): seq<Role>
  {
    match s
    case Assessment => [Consultant, Manager]
    case Metalwork => [Metalworker, Consultant, Manager]
    case Painting => [Painter, Consultant, Manager]
    case Delivery => [Consultant, Manager]
    case Finished => []
  }

  /** The guard shared by the advance operation and the worker's "complete" button. */
  predicate MayAdvance(s: Stage, r: Role)
  {
    r in Permissions(s)
  }

  lemma StageOrderIsTheFiveStages()
    ensures |StageOrder| == 5
    ensures forall i, j :: 0 <= i < j < |StageOrder| ==> StageOrder[i] != StageOrder[j]
    ensures forall s: Stage :: s in StageOrder
    ensures StageOrder[0] == Assessment && StageOrder[|StageOrder| - 1] == Finished
  {
    forall s: Stage ensures s in StageOrder {
      match s {
        case Assessment => assert StageOrder[0] == s;
        case Metalwork => assert StageOrder[1] == s;
        case Painting => assert StageOrder[2] == s;
        case Delivery => assert StageOrder[3] == s;
        case Finished => assert StageOrder[4] == s;
      }
    }
  }

  lemma FinishedHasNoPermittedRole(r: Role)
    ensures !MayAdvance(Finished, r)
  {
  }

  lemma ManagementMayCloseEveryOpenStage(s: Stage)
    requires s != Finished
    ensures MayAdvance(s, Manager) && MayAdvance(s, Consultant)
  {
  }

  lemma CraftRolesAreConfinedToTheirStage(s: Stage)
    ensures MayAdvance(s, Metalworker) <==> s == Metalwork
    ensures MayAdvance(s, Painter) <==> s == Painting
  {
  }

  lemma SparePartsClosesNoStage(s: Stage)
    ensures !MayAdvance(s, SpareParts)
  {
  }
}
