/** The manager dashboard's figures: for each task, whether it is eligible
    for and passes each of the three service-level checks (assessment on
    time, delivery on time, fast small repair) and whether it is overdue;
    over the task list, the counters and the three rounded rates.

    `Date.now()` is the parameter `now`; one value serves every read of the
    clock in one evaluation. */
module ManagerDashboard {
  import opened Types
  import opened Seqs
  import opened WorkingHours
  import opened WorkerDashboard
  import App

  /** Above this amount a task has no assessment target. */
  const ASSESSMENT_LIMIT: int := 10000

  // ---------------------------------------------------------------------
  // The per-task checks

  /** An `endTime` as JavaScript's `||` sees it: absent and zero are both false. */
  predicate Truthy(e: Option<int>)
  {
    e.Some? && e.value != 0
  }

  /** A closed assessment interval, as the `find` callback tests it. */
  predicate ClosedAssessment(e: StageHistory)
  {
    e.stage == Assessment && Truthy(e.endTime)
  }

  /** `history.find(h => h.stage === ASSESSMENT && h.endTime)`: a closed
      assessment interval of the history, or none when there is none. */
  function FindClosedAssessment(h: seq<StageHistory>): (r: Option<StageHistory>)
    ensures r.None? <==> forall i :: 0 <= i < |h| ==> !ClosedAssessment(h[i])
    ensures r.Some? ==> r.value in h && ClosedAssessment(r.value)
  {
    if h == [] then None
    else if ClosedAssessment(h[0]) then Some(h[0])
    else FindClosedAssessment(h[1..])
  }

  /** The search stops at the first closed assessment interval. */
  lemma {:induction false} FindClosedAssessmentIsFirst(h: seq<StageHistory>, k: int)
    requires 0 <= k < |h| && ClosedAssessment(h[k])
    requires forall j :: 0 <= j < k ==> !ClosedAssessment(h[j])
    ensures FindClosedAssessment(h) == Some(h[k])
  {
    if k > 0 {
      FindClosedAssessmentIsFirst(h[1..], k - 1);
    }
  }

  /** `targetTime`: 4 working hours for a small repair, 48 calendar hours up
      to the assessment limit, and no target above it. */
  function AssessmentTarget(t: RepairTask): Option<int>
  {
    if IsSmallRepair(t) then Some(4)
    else if t.assessmentAmount <= ASSESSMENT_LIMIT then Some(48)
    else None
  }

  predicate AssessmentEligible(t: RepairTask)
  {
    AssessmentTarget(t).Some?
  }

  /** The assessment deadline: 4 working hours after registration for a small
      repair, otherwise 48 calendar hours. */
  function AssessmentDeadline(t: RepairTask): int
  {
    if IsSmallRepair(t) then Deadline(t.createdAt, 4) else t.createdAt + 48 * HOUR
  }

  /** When the assessment finished: the end of the first closed assessment
      interval, or `now` while there is none. */
  function AssessmentFinish(t: RepairTask, now: int): int
  {
    var done := FindClosedAssessment(t.history);
    if done.Some? then done.value.endTime.value else now
  }

  predicate AssessmentPassed(t: RepairTask, now: int)
  {
    AssessmentEligible(t) && AssessmentFinish(t, now) <= AssessmentDeadline(t)
  }

  /** `actualFinishTime`: for a finished task the end of its last interval
      (`now` if that is missing or zero), for any other task `now`. */
  function FinishInstant(t: RepairTask, now: int): int
  {
    var h := t.history;
    if t.currentStage == Finished && h != [] && Truthy(h[|h| - 1].endTime) then h[|h| - 1].endTime.value
    else now
  }

  predicate DeliveryEligible(t: RepairTask, now: int)
  {
    t.currentStage == Finished || now > t.expectedDeliveryTime
  }

  predicate DeliveryPassed(t: RepairTask, now: int)
  {
    DeliveryEligible(t, now) && FinishInstant(t, now) <= t.expectedDeliveryTime
  }

  /** A small repair passes the fast-repair check when it finishes within 8
      working hours of registration. */
  predicate FastRepairPassed(t: RepairTask, now: int)
  {
    IsSmallRepair(t) && FinishInstant(t, now) <= Deadline(t.createdAt, 8)
  }

  /** `isAssOver`: still in assessment, with a target, past its deadline. */
  predicate AssessmentOverdue(t: RepairTask, now: int)
  {
    t.currentStage == Assessment && AssessmentEligible(t) && now > AssessmentDeadline(t)
  }

  /** What the overdue counter counts. A task past its expected delivery
      time counts even when it is finished. */
  predicate CountsOverdue(t: RepairTask, now: int)
  {
    AssessmentOverdue(t, now) || IsOverdue(t, now)
  }

  // ---------------------------------------------------------------------
  // The per-task checks on well-formed tasks

  /** On a task kept well-formed by the stage machine, the assessment finish
      is the end of the first interval once the task has left assessment
      (when that end is not zero), and `now` while it is still there. */
  lemma AssessmentFinishOfWellFormed(t: RepairTask, now: int)
    requires App.WellFormed(t)
    ensures t.currentStage == Assessment ==> AssessmentFinish(t, now) == now
    ensures t.currentStage != Assessment ==>
              t.history[0].endTime.Some? &&
              (t.history[0].endTime.value != 0 ==> AssessmentFinish(t, now) == t.history[0].endTime.value)
  {
    var h := t.history;
    assert h[0].stage == StageOrder[0];
    forall j | 0 < j < |h| ensures h[j].stage != Assessment {
      assert h[j].stage == StageOrder[j];
    }
    if t.currentStage == Assessment {
      assert |h| == 1 && h[0].endTime.None?;
    } else {
      assert |h| > 1;
      assert h[0].endTime == Some(h[1].startTime);
      if h[0].endTime.value != 0 {
        FindClosedAssessmentIsFirst(h, 0);
      }
    }
  }

  /** On a well-formed task, the finish instant is the end of the delivery
      interval once the task is finished (when that end is not zero), and
      `now` before. */
  lemma FinishInstantOfWellFormed(t: RepairTask, now: int)
    requires App.WellFormed(t)
    ensures t.currentStage != Finished ==> FinishInstant(t, now) == now
    ensures t.currentStage == Finished && t.history[3].endTime.value != 0 ==>
              FinishInstant(t, now) == t.history[3].endTime.value && t.history[3].stage == Delivery
  {
  }

  /** An unfinished task never counts as delivered on time: it only becomes
      eligible once its expected time has passed, and then its finish
      instant, `now`, is already late. */
  lemma UnfinishedNeverDeliveredOnTime(t: RepairTask, now: int)
    requires t.currentStage != Finished
    ensures DeliveryEligible(t, now) <==> IsOverdue(t, now)
    ensures !DeliveryPassed(t, now)
  {
  }

  /** The assessment deadline is never before registration, and a small
      repair's deadline falls inside working hours. */
  lemma AssessmentDeadlineBounds(t: RepairTask)
    ensures AssessmentDeadline(t) >= t.createdAt
    ensures IsSmallRepair(t) ==> WORK_START <= TimeOfDay(AssessmentDeadline(t)) <= WORK_END
  {
  }

  // ---------------------------------------------------------------------
  // Rates

  /** Euclidean division by a positive divisor brackets the dividend. */
  lemma DivBrackets(n: int, d: int)
    requires d > 0
    ensures d * (n / d) <= n < d * (n / d) + d
  {
  }

  lemma {:induction false} MulMonotone(d: int, a: int, b: int)
    requires d > 0 && a <= b
    ensures d * a <= d * b
  {
    assert d * b - d * a == d * (b - a);
  }

  /** The rounding formula lands on the nearest integer, and within
      [0, 100] when `passed <= eligible`. */
  lemma RoundedRatio(passed: nat, eligible: nat)
    requires eligible > 0
    ensures var r := (200 * passed + eligible) / (2 * eligible);
            && 2 * eligible * r <= 200 * passed + eligible < 2 * eligible * (r + 1)
            && (passed <= eligible ==> 0 <= r <= 100)
  {
    var n := 200 * passed + eligible;
    var d := 2 * eligible;
    var r := n / d;
    DivBrackets(n, d);
    assert d * (r + 1) == d * r + d;
    if r < 0 {
      MulMonotone(d, r, -1);
    }
    if passed <= eligible && r > 100 {
      MulMonotone(200, passed, eligible);
      MulMonotone(d, 101, r);
    }
  }

  /** `Math.round(passed / eligible * 100)`, or 100 with nothing eligible:
      the integer nearest to 100 * passed / eligible, halves rounded up. */
  function Rate(passed: nat, eligible: nat): (r: int)
    ensures eligible == 0 ==> r == 100
    ensures eligible > 0 ==> 2 * eligible * r <= 200 * passed + eligible < 2 * eligible * (r + 1)
    ensures passed <= eligible ==> 0 <= r <= 100
  {
    if eligible > 0 then
      RoundedRatio(passed, eligible);
      (200 * passed + eligible) / (2 * eligible)
    else 100
  }

  // ---------------------------------------------------------------------
  // The figures over the task list

  /** The per-task checks with `now` fixed, as the counters test them. */
  function AssessmentPassedAt(now: int): RepairTask -> bool
  {
    t => AssessmentPassed(t, now)
  }

  function DeliveryEligibleAt(now: int): RepairTask -> bool
  {
    t => DeliveryEligible(t, now)
  }

  function DeliveryPassedAt(now: int): RepairTask -> bool
  {
    t => DeliveryPassed(t, now)
  }

  function FastRepairPassedAt(now: int): RepairTask -> bool
  {
    t => FastRepairPassed(t, now)
  }

  function CountsOverdueAt(now: int): RepairTask -> bool
  {
    t => CountsOverdue(t, now)
  }

  function IsOverdueAt(now: int): RepairTask -> bool
  {
    t => IsOverdue(t, now)
  }

  predicate PartsMissing(t: RepairTask)
  {
    !t.isSparePartsReady
  }

  function Amount(t: RepairTask): int
  {
    t.assessmentAmount
  }

  /** The `stats` memo; `totalAmount` is the number before it is formatted. */
  datatype Stats = Stats(
    active: nat,
    overdue: nat,
    totalAmount: int,
    partsLack: nat,
    assessmentSLARate: int,
    onTimeDeliveryRate: int,
    fastRepairRate: int)

  /** No check passes a task it does not find eligible. */
  lemma PassedWithinEligible(ts: seq<RepairTask>, now: int)
    ensures Count(ts, AssessmentPassedAt(now)) <= Count(ts, AssessmentEligible)
    ensures Count(ts, DeliveryPassedAt(now)) <= Count(ts, DeliveryEligibleAt(now))
    ensures Count(ts, FastRepairPassedAt(now)) <= Count(ts, IsSmallRepair)
  {
    CountMonotone(ts, AssessmentPassedAt(now), AssessmentEligible);
    CountMonotone(ts, DeliveryPassedAt(now), DeliveryEligibleAt(now));
    CountMonotone(ts, FastRepairPassedAt(now), IsSmallRepair);
  }

  /** The figures as the memo defines them. The counters are bounded by the
      list, the tasks lacking parts are among the active ones, and every
      rate is a percentage. */
  function StatsOf(ts: seq<RepairTask>, now: int): (s: Stats)
    ensures s.overdue <= |ts| && s.partsLack <= s.active <= |ts|
    ensures 0 <= s.assessmentSLARate <= 100
    ensures 0 <= s.onTimeDeliveryRate <= 100
    ensures 0 <= s.fastRepairRate <= 100
  {
    var active := Filter(ts, Unfinished);
    PassedWithinEligible(ts, now);
    Stats(
      |active|,
      Count(ts, CountsOverdueAt(now)),
      Sum(ts, Amount),
      |Filter(active, PartsMissing)|,
      Rate(Count(ts, AssessmentPassedAt(now)), Count(ts, AssessmentEligible)),
      Rate(Count(ts, DeliveryPassedAt(now)), Count(ts, DeliveryEligibleAt(now))),
      Rate(Count(ts, FastRepairPassedAt(now)), Count(ts, IsSmallRepair)))
  }

  /** The outcome of the memo's checks on one task. */
  datatype Checks = Checks(
    assessmentEligible: bool,
    assessmentPassed: bool,
    deliveryEligible: bool,
    deliveryPassed: bool,
    smallRepair: bool,
    fastRepairPassed: bool,
    overdue: bool)

  /** The body of the memo's `forEach` for one task, before the counters. */
  method CheckTask(task: RepairTask, now: int) returns (c: Checks)
    ensures c.assessmentEligible == AssessmentEligible(task)
    ensures c.assessmentPassed == AssessmentPassed(task, now)
    ensures c.deliveryEligible == DeliveryEligible(task, now)
    ensures c.deliveryPassed == DeliveryPassed(task, now)
    ensures c.smallRepair == IsSmallRepair(task)
    ensures c.fastRepairPassed == FastRepairPassed(task, now)
    ensures c.overdue == CountsOverdue(task, now)
  {
    var isSmallRepair := task.assessmentAmount < SMALL_REPAIR_LIMIT;
    var isFinished := task.currentStage == Finished;
    var actualFinishTime := now;
    if isFinished && task.history != [] {
      var finalHistory := task.history[|task.history| - 1];
      if Truthy(finalHistory.endTime) {
        actualFinishTime := finalHistory.endTime.value;
      }
    }

    var assessmentDone := FindClosedAssessment(task.history);
    var targetTime: Option<int> := if isSmallRepair then Some(4)
                                   else if task.assessmentAmount <= ASSESSMENT_LIMIT then Some(48)
                                   else None;
    var deadline := task.createdAt + 48 * HOUR;
    if isSmallRepair {
      deadline := WorkingHoursDeadline(task.createdAt, 4);
    }
    var assessmentPassed := false;
    if targetTime.Some? {
      var finishTime := if assessmentDone.Some? then assessmentDone.value.endTime.value else now;
      assessmentPassed := finishTime <= deadline;
    }

    var deliveryEligible := isFinished || now > task.expectedDeliveryTime;
    var deliveryPassed := deliveryEligible && actualFinishTime <= task.expectedDeliveryTime;

    var fastRepairPassed := false;
    if isSmallRepair {
      var fastRepairDeadline := WorkingHoursDeadline(task.createdAt, 8);
      fastRepairPassed := actualFinishTime <= fastRepairDeadline;
    }

    var isAssOver := false;
    var isDelOver := now > task.expectedDeliveryTime;
    if task.currentStage == Assessment && targetTime.Some? {
      isAssOver := now > deadline;
    }
    c := Checks(targetTime.Some?, assessmentPassed, deliveryEligible, deliveryPassed,
                isSmallRepair, fastRepairPassed, isAssOver || isDelOver);
  }

  /** The memo's walk over the tasks, one counter per check. */
  method ComputeStats(ts: seq<RepairTask>, now: int) returns (s: Stats)
    ensures s == StatsOf(ts, now)
  {
    var active := Filter(ts, Unfinished);
    var overdueCount := 0;
    var assessmentEligible := 0;
    var assessmentPassed := 0;
    var deliveryEligible := 0;
    var deliveryPassed := 0;
    var smallRepairEligible := 0;
    var smallRepairPassed := 0;
    var i := 0;
    while i < |ts|
      invariant 0 <= i <= |ts|
      invariant overdueCount == Count(ts[..i], CountsOverdueAt(now))
      invariant assessmentEligible == Count(ts[..i], AssessmentEligible)
      invariant assessmentPassed == Count(ts[..i], AssessmentPassedAt(now))
      invariant deliveryEligible == Count(ts[..i], DeliveryEligibleAt(now))
      invariant deliveryPassed == Count(ts[..i], DeliveryPassedAt(now))
      invariant smallRepairEligible == Count(ts[..i], IsSmallRepair)
      invariant smallRepairPassed == Count(ts[..i], FastRepairPassedAt(now))
    {
      var c := CheckTask(ts[i], now);
      if c.assessmentEligible {
        assessmentEligible := assessmentEligible + 1;
      }
      if c.assessmentPassed {
        assessmentPassed := assessmentPassed + 1;
      }
      if c.deliveryEligible {
        deliveryEligible := deliveryEligible + 1;
      }
      if c.deliveryPassed {
        deliveryPassed := deliveryPassed + 1;
      }
      if c.smallRepair {
        smallRepairEligible := smallRepairEligible + 1;
      }
      if c.fastRepairPassed {
        smallRepairPassed := smallRepairPassed + 1;
      }
      if c.overdue {
        overdueCount := overdueCount + 1;
      }
      CountStep(ts, i, CountsOverdueAt(now));
      CountStep(ts, i, AssessmentEligible);
      CountStep(ts, i, AssessmentPassedAt(now));
      CountStep(ts, i, DeliveryEligibleAt(now));
      CountStep(ts, i, DeliveryPassedAt(now));
      CountStep(ts, i, IsSmallRepair);
      CountStep(ts, i, FastRepairPassedAt(now));
      i := i + 1;
    }
    assert ts[..|ts|] == ts;
    s := Stats(
      |active|,
      overdueCount,
      Sum(ts, Amount),
      |Filter(active, PartsMissing)|,
      if assessmentEligible > 0 then Rate(assessmentPassed, assessmentEligible) else 100,
      if deliveryEligible > 0 then Rate(deliveryPassed, deliveryEligible) else 100,
      if smallRepairEligible > 0 then Rate(smallRepairPassed, smallRepairEligible) else 100);
  }

  /** Every task whose card in the worker view is flagged overdue is counted
      overdue here too, finished tasks included. */
  lemma OverdueCardsAreCounted(ts: seq<RepairTask>, now: int)
    ensures Count(ts, IsOverdueAt(now)) <= StatsOf(ts, now).overdue
  {
    CountMonotone(ts, IsOverdueAt(now), CountsOverdueAt(now));
  }

  /** The active count is the length of the managers' worklist. */
  lemma ActiveIsManagementWorklist(ts: seq<RepairTask>, now: int)
    ensures StatsOf(ts, now).active == |Worklist(ts, Manager)|
  {
    WorklistByRole(ts, Manager);
  }

  /** With no negative amount, the total amount is not negative. */
  lemma TotalAmountNonNegative(ts: seq<RepairTask>, now: int)
    requires forall i :: 0 <= i < |ts| ==> ts[i].assessmentAmount >= 0
    ensures StatsOf(ts, now).totalAmount >= 0
  {
    SumOfNonNegatives(ts, Amount);
  }

  /** With no tasks, every counter is zero and every rate is 100. */
  lemma StatsOfNoTasks(now: int)
    ensures StatsOf([], now) == Stats(0, 0, 0, 0, 100, 100, 100)
  {
  }
}
