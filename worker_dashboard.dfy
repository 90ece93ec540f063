/** The worker view: which tasks each role's worklist shows, and the tests
    on each task card that decide which buttons and badges appear. */
module WorkerDashboard {
  import opened Types
  import opened Seqs
  import App

  /** Tasks below this assessment amount are small repairs. */
  const SMALL_REPAIR_LIMIT: int := 2000

  predicate Unfinished(t: RepairTask)
  {
    t.currentStage != Finished
  }

  /** The worklist filter: nothing finished; managers, consultants and the
      spare-parts desk see every other task; the metalworker and the painter
      see the tasks in their own stage. */
  predicate Visible(t: RepairTask, role: Role)
  {
    var isManagement := role == Manager || role == Consultant;
    if t.currentStage == Finished then false
    else if isManagement || role == SpareParts then true
    else if role == Metalworker then t.currentStage == Metalwork
    else if role == Painter then t.currentStage == Painting
    else false
  }

  /** The worklist test with the role fixed, as the filter receives it. */
  function VisibleTo(role: Role): RepairTask -> bool
  {
    t => Visible(t, role)
  }

  /** The task list the worker view shows for `role`. */
  function Worklist(ts: seq<RepairTask>, role: Role): seq<RepairTask>
  {
    Filter(ts, VisibleTo(role))
  }

  /** The worklist keeps the input order and holds exactly the visible tasks
      of the input, so never a finished one. */
  lemma WorklistMembers(ts: seq<RepairTask>, role: Role)
    ensures IsSubsequence(Worklist(ts, role), ts)
    ensures forall t :: t in Worklist(ts, role) <==> t in ts && Visible(t, role)
    ensures forall t :: t in Worklist(ts, role) ==> t.currentStage != Finished
  {
    FilterIsSubsequence(ts, VisibleTo(role));
    forall t | t in ts && Visible(t, role) ensures t in Worklist(ts, role) {
      FilterKeeps(ts, VisibleTo(role), t);
    }
  }

  /** Per role, the worklist is a plain stage filter of the input: every
      unfinished task for managers, consultants and the spare-parts desk, the
      tasks of the own stage for the metalworker and the painter. */
  lemma WorklistByRole(ts: seq<RepairTask>, role: Role)
    ensures role in {Manager, Consultant, SpareParts} ==> Worklist(ts, role) == Filter(ts, Unfinished)
    ensures role == Metalworker ==> Worklist(ts, role) == Filter(ts, (t: RepairTask) => t.currentStage == Metalwork)
    ensures role == Painter ==> Worklist(ts, role) == Filter(ts, (t: RepairTask) => t.currentStage == Painting)
  {
    if role in {Manager, Consultant, SpareParts} {
      FilterCongruent(ts, VisibleTo(role), Unfinished);
    } else if role == Metalworker {
      FilterCongruent(ts, VisibleTo(role), (t: RepairTask) => t.currentStage == Metalwork);
    } else {
      FilterCongruent(ts, VisibleTo(role), (t: RepairTask) => t.currentStage == Painting);
    }
  }

  /** `isAllowedToAdvance`: the card shows the "complete" button. */
  predicate IsAllowedToAdvance(t: RepairTask, role: Role)
  {
    MayAdvance(t.currentStage, role)
  }

  /** The visibility rules agree with the permission table: the metalworker,
      the painter, managers and consultants may complete every task they see;
      the spare-parts desk sees every unfinished task but may complete none. */
  lemma WorklistAndPermissions(ts: seq<RepairTask>, role: Role)
    ensures role != SpareParts ==> forall t :: t in Worklist(ts, role) ==> IsAllowedToAdvance(t, role)
    ensures role == SpareParts ==> forall t :: t in Worklist(ts, role) ==> !IsAllowedToAdvance(t, role)
  {
    WorklistMembers(ts, role);
  }

  /** The button appears on the card of the first task with an id exactly
      when pressing it changes that task. */
  lemma ButtonIffAdvanceTakesEffect(ts: seq<RepairTask>, id: string, u: Staff, now: int, k: int)
    requires App.HistoriesNonEmpty(ts, id)
    requires 0 <= k < |ts| && ts[k].id == id
    requires forall j :: 0 <= j < k ==> ts[j].id != id
    ensures IsAllowedToAdvance(ts[k], u.role) <==> App.Advanced(ts, id, Some(u), now)[k] != ts[k]
  {
    App.AdvanceTakesEffectIffPermitted(ts, id, u, now, k);
  }

  /** `isAllowedToToggleParts`. */
  predicate IsAllowedToToggleParts(role: Role)
  {
    role == SpareParts || role == Manager || role == Consultant
  }

  /** The roles that may toggle the parts flag are exactly the roles whose
      worklist shows every unfinished task. */
  lemma ToggleRolesSeeEveryUnfinishedTask(role: Role)
    ensures IsAllowedToToggleParts(role) <==> forall t :: Unfinished(t) ==> Visible(t, role)
  {
    if !IsAllowedToToggleParts(role) {
      var other := if role == Metalworker then Painting else Metalwork;
      var t := RepairTask("", "", "", "", 0, 0, other, false, "", 0, []);
      assert Unfinished(t) && !Visible(t, role);
    }
  }

  /** `isOverdue` of a card: the expected delivery time has passed. */
  predicate IsOverdue(t: RepairTask, now: int)
  {
    now > t.expectedDeliveryTime
  }

  /** `isSmallRepair` of a card. */
  predicate IsSmallRepair(t: RepairTask)
  {
    t.assessmentAmount < SMALL_REPAIR_LIMIT
  }
}
