/** The application shell's task-list logic: registering a vehicle, advancing
    a task through the stage machine, toggling the spare-parts flag, editing
    remarks, the search box, and where each role lands after logging in.

    The pure list operations come first, each with the invariant or inverse
    it is checked against; the `RepairShop` class at the end holds the
    component state (`tasks`, the logged-in user, the view, the search term)
    and updates it with those operations. */
module App {
  import opened Types
  import opened Seqs
  import opened Text

  /** The handler recorded when nobody is logged in, or the user's name is empty. */
  const SYSTEM_REGISTRAR: string := "系统登记"

  /** The fields the registration form supplies. */
  datatype TaskDraft = TaskDraft(
    licensePlate: string,
    contactPerson: string,
    insuranceCompany: string,
    assessmentAmount: int,
    expectedDeliveryTime: int,
    remarks: string)

  datatype View = Dashboard | Worker | Maintenance

  // ---------------------------------------------------------------------
  // The history invariant of a task

  /** The interval stages follow the stage order from its start. */
  predicate StagesFollowOrder(h: seq<StageHistory>)
  {
    |h| <= |StageOrder| && forall i :: 0 <= i < |h| ==> h[i].stage == StageOrder[i]
  }

  /** Each interval ends exactly when the next one begins. */
  predicate IntervalsMeet(h: seq<StageHistory>)
  {
    forall i :: 0 <= i < |h| - 1 ==> h[i].endTime == Some(h[i + 1].startTime)
  }

  /** Start times never decrease and no interval ends before it starts. */
  predicate IntervalsOrdered(h: seq<StageHistory>)
  {
    && (forall i :: 0 <= i < |h| - 1 ==> h[i].startTime <= h[i + 1].startTime)
    && (forall i :: 0 <= i < |h| && h[i].endTime.Some? ==> h[i].startTime <= h[i].endTime.value)
  }

  /** What the stage machine keeps true of every task it creates: the history
      walks the stage order from the start, consecutive intervals meet, the
      task was created when its first interval began, and the last interval is
      the open one of the current stage, unless the task is finished, when
      every interval is closed. */
  predicate WellFormed(t: RepairTask)
  {
    var h := t.history;
    && h != []
    && StagesFollowOrder(h)
    && IntervalsMeet(h)
    && t.createdAt == h[0].startTime
    && if t.currentStage == Finished then |h| == 4 && h[3].endTime.Some?
       else |h| == Position(t.currentStage) + 1 && h[|h| - 1].endTime.None?
  }

  /** The interval times never run backwards. */
  predicate Chronological(t: RepairTask)
  {
    IntervalsOrdered(t.history)
  }

  /** `history[history.length - 1].endTime = now`, on a copy. */
  function CloseLast(h: seq<StageHistory>, now: int): seq<StageHistory>
    requires h != []
  {
    h[|h| - 1 := h[|h| - 1].(endTime := Some(now))]
  }

  lemma CloseLastKeepsShape(h: seq<StageHistory>, now: int)
    requires h != [] && StagesFollowOrder(h) && IntervalsMeet(h)
    ensures StagesFollowOrder(CloseLast(h, now)) && IntervalsMeet(CloseLast(h, now))
  {
    var c := CloseLast(h, now);
    assert forall i :: 0 <= i < |h| - 1 ==> c[i] == h[i];
    assert forall i :: 0 <= i < |h| ==> c[i].startTime == h[i].startTime && c[i].stage == h[i].stage;
  }

  lemma AppendKeepsShape(h: seq<StageHistory>, e: StageHistory)
    requires h != [] && StagesFollowOrder(h) && IntervalsMeet(h)
    requires |h| < |StageOrder| && e.stage == StageOrder[|h|]
    requires h[|h| - 1].endTime == Some(e.startTime)
    ensures StagesFollowOrder(h + [e]) && IntervalsMeet(h + [e])
  {
    var h' := h + [e];
    assert forall i :: 0 <= i < |h| ==> h'[i] == h[i];
  }

  lemma CloseLastKeepsOrder(h: seq<StageHistory>, now: int)
    requires h != [] && IntervalsOrdered(h) && now >= h[|h| - 1].startTime
    ensures IntervalsOrdered(CloseLast(h, now))
  {
    var c := CloseLast(h, now);
    assert forall i :: 0 <= i < |h| - 1 ==> c[i] == h[i];
  }

  lemma AppendKeepsOrder(h: seq<StageHistory>, e: StageHistory)
    requires h != [] && IntervalsOrdered(h)
    requires h[|h| - 1].startTime <= e.startTime && e.endTime.None?
    ensures IntervalsOrdered(h + [e])
  {
    var h' := h + [e];
    assert forall i :: 0 <= i < |h| ==> h'[i] == h[i];
  }

  /** A well-formed task has exactly one open interval, its last, while it is
      unfinished, and none once it is finished. */
  lemma OpenEntryIsLastAndUnfinished(t: RepairTask, i: int)
    requires WellFormed(t) && 0 <= i < |t.history|
    ensures t.history[i].endTime.None? <==> i == |t.history| - 1 && t.currentStage != Finished
  {
    var h := t.history;
    if i < |h| - 1 {
      assert h[i].endTime == Some(h[i + 1].startTime);
    } else if t.currentStage == Finished {
      assert |h| == 4;
    } else {
      assert h[|h| - 1].endTime.None?;
    }
  }

  // ---------------------------------------------------------------------
  // Creating a task

  function HandlerName(user: Option<Staff>): string
  {
    if user.Some? && user.value.name != "" then user.value.name else SYSTEM_REGISTRAR
  }

  function NewTask(draft: TaskDraft, id: string, user: Option<Staff>, now: int): RepairTask
  {
    RepairTask(id, draft.licensePlate, draft.contactPerson, draft.insuranceCompany,
               draft.assessmentAmount, draft.expectedDeliveryTime, Assessment, false,
               draft.remarks, now, [StageHistory(Assessment, now, None, HandlerName(user))])
  }

  /** `addTask`: the new task goes in front of the existing ones, which keep
      their order. It starts in assessment, parts not ready, created now, with
      one open assessment interval handled by the user (or the system
      registrar), and it satisfies the history invariant. */
  function Registered(ts: seq<RepairTask>, draft: TaskDraft, id: string, user: Option<Staff>, now: int): (r: seq<RepairTask>)
    ensures |r| == |ts| + 1 && r[1..] == ts
    ensures r[0].id == id && r[0].currentStage == Assessment && !r[0].isSparePartsReady && r[0].createdAt == now
    ensures r[0].history == [StageHistory(Assessment, now, None, HandlerName(user))]
    ensures r[0].licensePlate == draft.licensePlate && r[0].contactPerson == draft.contactPerson
    ensures r[0].insuranceCompany == draft.insuranceCompany && r[0].assessmentAmount == draft.assessmentAmount
    ensures r[0].expectedDeliveryTime == draft.expectedDeliveryTime && r[0].remarks == draft.remarks
    ensures WellFormed(r[0]) && Chronological(r[0])
  {
    [NewTask(draft, id, user, now)] + ts
  }

  // ---------------------------------------------------------------------
  // Updating the tasks with a given id

  /** `prev.map(t => t.id === taskId ? f(t) : t)`. */
  function UpdateWhere(ts: seq<RepairTask>, id: string, f: RepairTask --> RepairTask): (r: seq<RepairTask>)
    requires forall i :: 0 <= i < |ts| && ts[i].id == id ==> f.requires(ts[i])
    ensures |r| == |ts|
    ensures forall i :: 0 <= i < |ts| ==> r[i] == if ts[i].id == id then f(ts[i]) else ts[i]
  {
    if ts == [] then []
    else [if ts[0].id == id then f(ts[0]) else ts[0]] + UpdateWhere(ts[1..], id, f)
  }

  /** `Array.prototype.find` on the id. */
  function Find(ts: seq<RepairTask>, id: string): (r: Option<RepairTask>)
    ensures r.None? <==> forall i :: 0 <= i < |ts| ==> ts[i].id != id
    ensures r.Some? ==> r.value in ts && r.value.id == id
  {
    if ts == [] then None
    else if ts[0].id == id then Some(ts[0])
    else Find(ts[1..], id)
  }

  lemma {:induction false} FindReturnsFirst(ts: seq<RepairTask>, id: string, k: int)
    requires 0 <= k < |ts| && ts[k].id == id
    requires forall j :: 0 <= j < k ==> ts[j].id != id
    ensures Find(ts, id) == Some(ts[k])
  {
    if k > 0 {
      FindReturnsFirst(ts[1..], id, k - 1);
    }
  }

  // ---------------------------------------------------------------------
  // The stage machine

  /** The advance step of one task: close the last interval now and, unless
      the next stage is FINISHED, open an interval for the next stage handled
      by `handler`. A task at the end of the order is returned unchanged. */
  function AdvanceOne(t: RepairTask, handler: string, now: int): RepairTask
    requires t.history != []
  {
    match NextStage(t.currentStage)
    case None => t
    case Some(next) =>
      var closed := CloseLast(t.history, now);
      var history := if next != Finished then closed + [StageHistory(next, now, None, handler)] else closed;
      t.(currentStage := next, history := history)
  }

  /** An unfinished task moves to the next stage of the order; its last
      interval is closed at `now` and nothing else in the history changes; a
      new open interval is appended exactly when the next stage is not
      FINISHED; no other field changes. A finished task does not change. */
  lemma AdvanceOneStep(t: RepairTask, handler: string, now: int)
    requires t.history != []
    ensures var r := AdvanceOne(t, handler, now);
            var n := |t.history|;
            if t.currentStage == Finished then r == t
            else
              && Position(r.currentStage) == Position(t.currentStage) + 1
              && |r.history| == (if r.currentStage == Finished then n else n + 1)
              && r.history[..n - 1] == t.history[..n - 1]
              && r.history[n - 1] == t.history[n - 1].(endTime := Some(now))
              && (r.currentStage != Finished ==> r.history[n] == StageHistory(r.currentStage, now, None, handler))
              && r.(currentStage := t.currentStage, history := t.history) == t
  {
    if t.currentStage != Finished {
      var c := CloseLast(t.history, now);
      assert c[..|t.history| - 1] == t.history[..|t.history| - 1];
    }
  }

  /** Advancing keeps the history invariant. */
  lemma AdvanceOnePreservesWellFormed(t: RepairTask, handler: string, now: int)
    requires WellFormed(t)
    ensures WellFormed(AdvanceOne(t, handler, now))
  {
    if t.currentStage != Finished {
      var next := NextStage(t.currentStage).value;
      var h := t.history;
      var c := CloseLast(h, now);
      CloseLastKeepsShape(h, now);
      if next != Finished {
        IndexOfStage(next);
        AppendKeepsShape(c, StageHistory(next, now, None, handler));
        assert (c + [StageHistory(next, now, None, handler)])[0] == c[0];
      }
    }
  }

  /** Advancing at a time no earlier than the start of the open interval
      keeps the history chronological. */
  lemma AdvanceOnePreservesChronology(t: RepairTask, handler: string, now: int)
    requires t.history != [] && Chronological(t)
    requires now >= t.history[|t.history| - 1].startTime
    ensures Chronological(AdvanceOne(t, handler, now))
  {
    if t.currentStage != Finished {
      var next := NextStage(t.currentStage).value;
      var c := CloseLast(t.history, now);
      CloseLastKeepsOrder(t.history, now);
      if next != Finished {
        AppendKeepsOrder(c, StageHistory(next, now, None, handler));
      }
    }
  }

  predicate HistoriesNonEmpty(ts: seq<RepairTask>, id: string)
  {
    forall i :: 0 <= i < |ts| && ts[i].id == id ==> ts[i].history != []
  }

  /** `advanceTask`: nothing happens unless a task with the id exists, a user
      is logged in and the user's role may close the stage of the first such
      task; then every task with the id takes the advance step. */
  function Advanced(ts: seq<RepairTask>, id: string, user: Option<Staff>, now: int): seq<RepairTask>
    requires HistoriesNonEmpty(ts, id)
  {
    var found := Find(ts, id);
    if found.None? || user.None? then ts
    else if !MayAdvance(found.value.currentStage, user.value.role) then ts
    else UpdateWhere(ts, id, (t: RepairTask) requires t.history != [] => AdvanceOne(t, user.value.name, now))
  }

  /** Once the guard passes, the result is the advance step applied to
      every task with the id. */
  lemma AdvancedPointwise(ts: seq<RepairTask>, id: string, u: Staff, now: int)
    requires HistoriesNonEmpty(ts, id)
    requires Find(ts, id).Some? && MayAdvance(Find(ts, id).value.currentStage, u.role)
    ensures var r := Advanced(ts, id, Some(u), now);
            && |r| == |ts|
            && forall k :: 0 <= k < |ts| ==> r[k] == if ts[k].id == id then AdvanceOne(ts[k], u.name, now) else ts[k]
  {
  }

  /** The guard of `advanceTask`: an unknown id, no user or a role outside
      the stage's permission list leaves the list untouched. */
  lemma AdvanceRejected(ts: seq<RepairTask>, id: string, user: Option<Staff>, now: int)
    requires HistoriesNonEmpty(ts, id)
    requires Find(ts, id).None? || user.None? || !MayAdvance(Find(ts, id).value.currentStage, user.value.role)
    ensures Advanced(ts, id, user, now) == ts
  {
  }

  /** Only tasks with the id can change, and they change by one advance step;
      the length and order of the list are kept, and a finished task never
      changes. */
  lemma AdvanceFrame(ts: seq<RepairTask>, id: string, user: Option<Staff>, now: int, i: int)
    requires HistoriesNonEmpty(ts, id) && 0 <= i < |ts|
    ensures var r := Advanced(ts, id, user, now);
            && |r| == |ts|
            && (ts[i].id != id ==> r[i] == ts[i])
            && (r[i] == ts[i] || (user.Some? && r[i] == AdvanceOne(ts[i], user.value.name, now)))
            && (ts[i].currentStage == Finished ==> r[i] == ts[i])
  {
    var found := Find(ts, id);
    if found.None? || user.None? || !MayAdvance(found.value.currentStage, user.value.role) {
      AdvanceRejected(ts, id, user, now);
    } else {
      AdvancedPointwise(ts, id, user.value, now);
      if ts[i].id == id {
        AdvanceOneStep(ts[i], user.value.name, now);
      }
    }
  }

  /** For the first task with the id and a logged-in user, the advance takes
      effect exactly when the role may close the task's stage: the test the
      worker dashboard uses to show the "complete" button. */
  lemma AdvanceTakesEffectIffPermitted(ts: seq<RepairTask>, id: string, u: Staff, now: int, k: int)
    requires HistoriesNonEmpty(ts, id)
    requires 0 <= k < |ts| && ts[k].id == id
    requires forall j :: 0 <= j < k ==> ts[j].id != id
    ensures Advanced(ts, id, Some(u), now)[k] != ts[k] <==> MayAdvance(ts[k].currentStage, u.role)
  {
    FindReturnsFirst(ts, id, k);
    var r := Advanced(ts, id, Some(u), now);
    if MayAdvance(ts[k].currentStage, u.role) {
      assert r[k] == AdvanceOne(ts[k], u.name, now);
      AdvanceOneMoves(ts[k], u.name, now);
    }
  }

  /** An unfinished task always leaves its stage when advanced. */
  lemma AdvanceOneMoves(t: RepairTask, handler: string, now: int)
    requires t.history != [] && t.currentStage != Finished
    ensures AdvanceOne(t, handler, now).currentStage != t.currentStage
  {
    AdvanceOneStep(t, handler, now);
  }

  /** Advancing keeps every task of a well-formed list well-formed. */
  lemma AdvancedPreservesWellFormed(ts: seq<RepairTask>, id: string, user: Option<Staff>, now: int)
    requires forall i :: 0 <= i < |ts| ==> WellFormed(ts[i])
    ensures HistoriesNonEmpty(ts, id)
    ensures var r := Advanced(ts, id, user, now);
            forall i :: 0 <= i < |r| ==> WellFormed(r[i])
  {
    var r := Advanced(ts, id, user, now);
    forall i | 0 <= i < |r| ensures WellFormed(r[i]) {
      AdvanceFrame(ts, id, user, now, i);
      if user.Some? {
        AdvanceOnePreservesWellFormed(ts[i], user.value.name, now);
      }
    }
  }

  // ---------------------------------------------------------------------
  // Spare parts and remarks

  function ToggledParts(t: RepairTask): RepairTask
  {
    t.(isSparePartsReady := !t.isSparePartsReady)
  }

  /** `toggleSpareParts`. */
  function PartsToggled(ts: seq<RepairTask>, id: string): seq<RepairTask>
  {
    UpdateWhere(ts, id, ToggledParts)
  }

  /** Only the flag of the tasks with the id flips; everything else stays. */
  lemma PartsToggledFrame(ts: seq<RepairTask>, id: string, i: int)
    requires 0 <= i < |ts|
    ensures var r := PartsToggled(ts, id);
            && |r| == |ts|
            && (ts[i].id == id ==> r[i].isSparePartsReady == !ts[i].isSparePartsReady
                                   && r[i].(isSparePartsReady := ts[i].isSparePartsReady) == ts[i])
            && (ts[i].id != id ==> r[i] == ts[i])
  {
  }

  /** Toggling twice restores the list. */
  lemma PartsToggledTwice(ts: seq<RepairTask>, id: string)
    ensures PartsToggled(PartsToggled(ts, id), id) == ts
  {
    var r := PartsToggled(PartsToggled(ts, id), id);
    assert forall i :: 0 <= i < |ts| ==> r[i] == ts[i];
  }

  /** `updateTaskRemarks`. */
  function RemarksUpdated(ts: seq<RepairTask>, id: string, remarks: string): seq<RepairTask>
  {
    UpdateWhere(ts, id, (t: RepairTask) => t.(remarks := remarks))
  }

  lemma RemarksUpdatedFrame(ts: seq<RepairTask>, id: string, remarks: string, i: int)
    requires 0 <= i < |ts|
    ensures var r := RemarksUpdated(ts, id, remarks);
            && |r| == |ts|
            && (ts[i].id == id ==> r[i].remarks == remarks && r[i].(remarks := ts[i].remarks) == ts[i])
            && (ts[i].id != id ==> r[i] == ts[i])
  {
  }

  /** Setting the same remarks twice is the same as once. */
  lemma RemarksUpdatedIdempotent(ts: seq<RepairTask>, id: string, remarks: string)
    ensures RemarksUpdated(RemarksUpdated(ts, id, remarks), id, remarks) == RemarksUpdated(ts, id, remarks)
  {
    var once := RemarksUpdated(ts, id, remarks);
    var twice := RemarksUpdated(once, id, remarks);
    assert forall i :: 0 <= i < |ts| ==> twice[i] == once[i];
  }

  /** Neither flag nor remarks edits touch the stage or the history. */
  lemma EditsKeepWellFormed(ts: seq<RepairTask>, id: string, remarks: string)
    requires forall i :: 0 <= i < |ts| ==> WellFormed(ts[i])
    ensures forall i :: 0 <= i < |ts| ==> WellFormed(PartsToggled(ts, id)[i])
    ensures forall i :: 0 <= i < |ts| ==> WellFormed(RemarksUpdated(ts, id, remarks)[i])
  {
  }

  // ---------------------------------------------------------------------
  // Search

  /** The plate or the contact contains the term, all lower-cased. */
  predicate MatchesSearch(t: RepairTask, term: string)
  {
    Includes(Lower(t.licensePlate), Lower(term)) || Includes(Lower(t.contactPerson), Lower(term))
  }

  /** `filteredTasks` of the shell. */
  function Searched(ts: seq<RepairTask>, term: string): seq<RepairTask>
  {
    Filter(ts, t => MatchesSearch(t, term))
  }

  /** The search keeps, in order, exactly the tasks whose lower-cased plate
      or contact has the lower-cased term at some position. */
  lemma SearchedKeepsExactlyTheMatches(ts: seq<RepairTask>, term: string)
    ensures IsSubsequence(Searched(ts, term), ts)
    ensures forall t :: t in Searched(ts, term) <==>
              t in ts && ((exists i :: OccursAt(Lower(t.licensePlate), Lower(term), i)) ||
                          (exists i :: OccursAt(Lower(t.contactPerson), Lower(term), i)))
  {
    FilterIsSubsequence(ts, t => MatchesSearch(t, term));
    forall t ensures t in Searched(ts, term) <==> t in ts && MatchesSearch(t, term) {
      if t in ts && MatchesSearch(t, term) {
        FilterKeeps(ts, t => MatchesSearch(t, term), t);
      }
    }
    forall t ensures MatchesSearch(t, term) <==>
                       ((exists i :: OccursAt(Lower(t.licensePlate), Lower(term), i)) ||
                        (exists i :: OccursAt(Lower(t.contactPerson), Lower(term), i))) {
      IncludesIffOccurs(Lower(t.licensePlate), Lower(term));
      IncludesIffOccurs(Lower(t.contactPerson), Lower(term));
    }
  }

  /** An empty search term keeps every task. */
  lemma EmptySearchKeepsAll(ts: seq<RepairTask>)
    ensures Searched(ts, "") == ts
  {
    forall i | 0 <= i < |ts| ensures MatchesSearch(ts[i], "") {
      EveryStringIncludesEmpty(Lower(ts[i].licensePlate));
    }
    FilterAllKept(ts, t => MatchesSearch(t, ""));
  }

  // ---------------------------------------------------------------------
  // Login routing

  /** `handleLogin`: managers and consultants land on the dashboard, every
      other role on the worker view. */
  function LandingView(r: Role): View
  {
    if r != Manager && r != Consultant then Worker else Dashboard
  }

  /** `hasFullAccess`. */
  predicate HasFullAccess(user: Option<Staff>)
  {
    user.Some? && (user.value.role == Manager || user.value.role == Consultant)
  }

  /** Full access is held by exactly the logged-in users routed to the
      dashboard. */
  lemma FullAccessIffDashboardLanding(user: Option<Staff>)
    ensures HasFullAccess(user) <==> user.Some? && LandingView(user.value.role) == Dashboard
  {
  }

  /** The roles routed to the dashboard are exactly those the permission
      table lets close every unfinished stage. */
  lemma DashboardRolesCloseEveryStage(r: Role)
    ensures LandingView(r) == Dashboard <==> forall s: Stage :: s != Finished ==> MayAdvance(s, r)
  {
    if LandingView(r) == Worker {
      assert !MayAdvance(Assessment, r);
    }
  }

  /** The per-task body of `advanceTask`'s map: copy the history, close its
      last interval in place and push the next one. */
  method AdvanceCopy(t: RepairTask, handler: string, now: int) returns (r: RepairTask)
    requires t.history != []
    ensures r == AdvanceOne(t, handler, now)
  {
    r := t;
    var next := NextStage(t.currentStage);
    if next.Some? {
      var history := t.history;
      history := history[|history| - 1 := history[|history| - 1].(endTime := Some(now))];
      assert history == CloseLast(t.history, now);
      if next.value != Finished {
        history := history + [StageHistory(next.value, now, None, handler)];
      }
      r := t.(currentStage := next.value, history := history);
      assert NextStage(t.currentStage) == next;
    }
  }

  /** The map of `advanceTask`: every task with the id takes the advance
      step, copied as in `AdvanceCopy`; every other task is kept. */
  method AdvanceMatching(ts: seq<RepairTask>, id: string, handler: string, now: int) returns (result: seq<RepairTask>)
    requires HistoriesNonEmpty(ts, id)
    ensures |result| == |ts|
    ensures forall k :: 0 <= k < |ts| ==> result[k] == if ts[k].id == id then AdvanceOne(ts[k], handler, now) else ts[k]
  {
    result := [];
    var i := 0;
    while i < |ts|
      invariant 0 <= i <= |ts| && |result| == i
      invariant forall k :: 0 <= k < i ==> result[k] == if ts[k].id == id then AdvanceOne(ts[k], handler, now) else ts[k]
    {
      var t := ts[i];
      if t.id == id {
        t := AdvanceCopy(t, handler, now);
      }
      result := result + [t];
      i := i + 1;
    }
  }

  /** The result of the map is the list `Advanced` describes. */
  lemma MatchingIsAdvanced(ts: seq<RepairTask>, id: string, u: Staff, now: int, result: seq<RepairTask>)
    requires HistoriesNonEmpty(ts, id)
    requires Find(ts, id).Some? && MayAdvance(Find(ts, id).value.currentStage, u.role)
    requires |result| == |ts|
    requires forall k :: 0 <= k < |ts| ==> result[k] == if ts[k].id == id then AdvanceOne(ts[k], u.name, now) else ts[k]
    ensures result == Advanced(ts, id, Some(u), now)
  {
    AdvancedPointwise(ts, id, u, now);
  }

  // ---------------------------------------------------------------------
  // The component state

  class RepairShop {
    var tasks: seq<RepairTask>
    var loggedInUser: Option<Staff>
    var view: View
    var searchTerm: string

    ghost predicate Valid()
      reads this
    {
      forall i :: 0 <= i < |tasks| ==> WellFormed(tasks[i])
    }

    /** The state at start-up, from any list of well-formed tasks; the
        source's own start-up list is mock data this model leaves out. */
    constructor (initial: seq<RepairTask>)
      requires forall i :: 0 <= i < |initial| ==> WellFormed(initial[i])
      ensures Valid()
      ensures tasks == initial && loggedInUser == None && view == Dashboard && searchTerm == ""
    {
      tasks := initial;
      loggedInUser := None;
      view := Dashboard;
      searchTerm := "";
    }

    method HandleLogin(user: Staff)
      modifies this
      ensures loggedInUser == Some(user) && view == LandingView(user.role)
      ensures tasks == old(tasks) && searchTerm == old(searchTerm)
    {
      loggedInUser := Some(user);
      if user.role != Manager && user.role != Consultant {
        view := Worker;
      } else {
        view := Dashboard;
      }
    }

    method HandleLogout()
      modifies this
      ensures loggedInUser == None && view == Dashboard
      ensures tasks == old(tasks) && searchTerm == old(searchTerm)
    {
      loggedInUser := None;
      view := Dashboard;
    }

    method SetSearchTerm(term: string)
      modifies this`searchTerm
      ensures searchTerm == term
    {
      searchTerm := term;
    }

    method AddTask(draft: TaskDraft, id: string, now: int)
      modifies this`tasks
      ensures tasks == Registered(old(tasks), draft, id, loggedInUser, now)
      ensures old(Valid()) ==> Valid()
    {
      var newTask := NewTask(draft, id, loggedInUser, now);
      tasks := [newTask] + tasks;
      assert tasks[0] == Registered(old(tasks), draft, id, loggedInUser, now)[0];
    }

    method UpdateTaskRemarks(id: string, remarks: string)
      modifies this`tasks
      ensures tasks == RemarksUpdated(old(tasks), id, remarks)
      ensures old(Valid()) ==> Valid()
    {
      if Valid() {
        EditsKeepWellFormed(tasks, id, remarks);
      }
      tasks := RemarksUpdated(tasks, id, remarks);
    }

    method ToggleSpareParts(id: string)
      modifies this`tasks
      ensures tasks == PartsToggled(old(tasks), id)
      ensures old(Valid()) ==> Valid()
    {
      if Valid() {
        EditsKeepWellFormed(tasks, id, "");
      }
      tasks := PartsToggled(tasks, id);
    }

    /** The guard, then the map over the list, advancing every task with
        the id. */
    method AdvanceTask(id: string, now: int)
      requires Valid()
      modifies this`tasks
      ensures Valid()
      ensures HistoriesNonEmpty(old(tasks), id)
      ensures tasks == Advanced(old(tasks), id, loggedInUser, now)
    {
      AdvancedPreservesWellFormed(tasks, id, loggedInUser, now);
      var task := Find(tasks, id);
      if task.None? || loggedInUser.None? || !MayAdvance(task.value.currentStage, loggedInUser.value.role) {
        AdvanceRejected(tasks, id, loggedInUser, now);
        return;
      }
      var result := AdvanceMatching(tasks, id, loggedInUser.value.name, now);
      MatchingIsAdvanced(tasks, id, loggedInUser.value, now, result);
      tasks := result;
    }

    /** The list the views receive: the tasks matching the search term. */
    function FilteredTasks(): (r: seq<RepairTask>)
      reads this
      ensures IsSubsequence(r, tasks)
      ensures searchTerm == "" ==> r == tasks
    {
      SearchedKeepsExactlyTheMatches(tasks, searchTerm);
      EmptySearchKeepsAll(tasks);
      Searched(tasks, searchTerm)
    }
  }
}
