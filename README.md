# Repair-shop workflow: a Dafny model

This project models the workflow core of a collision-repair workshop
application. A repair task moves through five stages in a fixed order:
assessment (定损), metalwork (钣金), painting (喷漆), delivery (交车) and
finished (已完工). A task may only leave a stage when the acting role appears
in that stage's permission list. Each move closes the open interval of the
task's stage history and, unless the task is now finished, opens one for the
next stage. Around this stage machine sit:

- the application shell's list operations: register, advance, toggle the
  spare-parts flag, edit remarks, search, and routing after login;
- the manager dashboard's service-level figures, built on a deadline
  calculator that counts only the 09:00-18:00 working window;
- the worker view's role-based worklist and the tests on each task card.

Modules, one per source file plus two of shared primitives:

- `Types` (`types.dfy`): stages, roles, tasks, the stage order and the
  permission table.
- `App` (`app.dfy`): the shell's operations, both as pure functions on the
  task list and as the `RepairShop` class that holds the component state. It
  also defines the history invariant `WellFormed` that every operation keeps.
- `WorkingHours` (`working_hours.dfy`): the working-hours deadline, both as
  the source's loop (a method) and as a recursive specification. A closed
  form and monotonicity are proved about it.
- `ManagerDashboard` (`manager_dashboard.dfy`): the per-task checks, the
  `stats` figures as a specification function, and the `forEach` walk that
  computes them.
- `WorkerDashboard` (`worker_dashboard.dfy`): worklist visibility and the
  card predicates.
- `Seqs` and `Text`: `filter`, `indexOf`, counting and summing; ASCII
  `toLowerCase` and `includes`.

Time is epoch milliseconds. Local time is a fixed UTC+8 offset (China
Standard Time, which has no daylight saving), so the time of day of `t` is
`(t + 8 h) mod 24 h`. `Date.now()` becomes a parameter `now`.

Where the code and its written design disagree, the model follows the code:

- The overdue counter of the manager dashboard counts a task past its
  expected delivery time even when the task is finished. The design counts
  only unfinished tasks.
- An advance the guard rejects leaves the list unchanged without reporting a
  reason. The design speaks of "permission denied" and "invalid state"
  signals.

## Model

| member | source | states |
|---|---|---|
| Types.NextStage | types.ts:10-16 | FINISHED is the only stage without a successor; every other stage's successor is the next position of the order |
| Types.IndexOfStage | types.ts:10-16 | `indexOf` finds each stage in the order, at its position |
| Types.StageOrderIsTheFiveStages | types.ts:10-16 | the order lists five distinct stages, covers every stage, starts with assessment and ends with finished |
| Types.FinishedHasNoPermittedRole | types.ts:64 | no role may close FINISHED |
| Types.ManagementMayCloseEveryOpenStage | types.ts:60-63 | managers and consultants may close every unfinished stage |
| Types.CraftRolesAreConfinedToTheirStage | types.ts:61-62 | the metalworker may close exactly metalwork, the painter exactly painting |
| Types.SparePartsClosesNoStage | types.ts:59-65 | the spare-parts desk may close no stage |
| Types.StageOrder | types.ts:10-16 | the fixed order; its properties are Types.StageOrderIsTheFiveStages and Types.NextStage |
| Types.Permissions | types.ts:59-65 | the permission table, one list per stage; its properties are the four permission lemmas above |
| Types.MayAdvance | App.tsx:76 | `STAGE_PERMISSIONS[stage].includes(role)`, the guard shared by the advance and the complete button; see App.AdvanceRejected and WorkerDashboard.ButtonIffAdvanceTakesEffect |
| App.OpenEntryIsLastAndUnfinished | App.tsx:55-93 | in a well-formed task only the last interval is open, and only while the task is unfinished |
| App.Registered | App.tsx:55-65 | the new task is prepended and the old list follows unchanged; it is in assessment, parts not ready, created now, with one open assessment interval handled by the user or 系统登记; it is well-formed and chronological |
| App.UpdateWhere | App.tsx:70 | the map keeps the length and applies the update to exactly the tasks with the id |
| App.Find | App.tsx:74 | finds nothing exactly when no task has the id; otherwise a task of the list with that id |
| App.FindReturnsFirst | App.tsx:74 | `find` returns the first task with the id |
| App.AdvanceOneStep | App.tsx:79-91 | a finished task is unchanged; otherwise the stage moves one position along the order, the last interval closes at now, the earlier intervals are kept, a new open interval for the next stage is appended exactly when that stage is not FINISHED, and no other field changes |
| App.AdvanceOneMoves | App.tsx:80-88 | an unfinished task always leaves its stage |
| App.AdvanceOnePreservesWellFormed | App.tsx:79-91 | one advance step keeps the history invariant |
| App.AdvanceOnePreservesChronology | App.tsx:79-91 | advancing no earlier than the open interval began keeps interval times in order |
| App.AdvanceRejected | App.tsx:73-76 | an unknown id, no logged-in user or a role outside the stage's list leaves the list unchanged |
| App.AdvancedPointwise | App.tsx:73-92 | once the guard passes, every task with the id takes the advance step and every other task is kept |
| App.AdvanceFrame | App.tsx:78-92 | length and order are kept, tasks with another id and finished tasks are unchanged, and a changed task changed by one advance step |
| App.AdvanceTakesEffectIffPermitted | App.tsx:73-92 | for the first task with the id and a logged-in user, the advance changes the task exactly when the role may close its stage |
| App.AdvancedPreservesWellFormed | App.tsx:73-92 | advancing keeps every task of a well-formed list well-formed |
| App.AdvanceCopy | App.tsx:80-88 | the copy, the in-place close and the push compute exactly the advance step |
| App.AdvanceMatching | App.tsx:78-92 | the map advances exactly the tasks with the id and keeps the others |
| App.MatchingIsAdvanced | App.tsx:73-92 | the mapped list is the specified result of the advance |
| App.PartsToggledFrame | App.tsx:95-97 | only the flag of the tasks with the id flips; all else stays |
| App.PartsToggledTwice | App.tsx:95-97 | toggling twice restores the list |
| App.RemarksUpdatedFrame | App.tsx:69-71 | only the remarks of the tasks with the id change, to the new text |
| App.RemarksUpdatedIdempotent | App.tsx:69-71 | setting the same remarks twice equals setting them once |
| App.EditsKeepWellFormed | App.tsx:69-97 | flag and remarks edits keep every task well-formed |
| App.SearchedKeepsExactlyTheMatches | App.tsx:99-104 | the search keeps, in order, exactly the tasks whose lower-cased plate or contact contains the lower-cased term at some position |
| App.EmptySearchKeepsAll | App.tsx:99-104 | an empty term keeps every task |
| App.DashboardRolesCloseEveryStage | App.tsx:39-47 | the roles routed to the dashboard are exactly those allowed to close every unfinished stage |
| App.HandlerName | App.tsx:63 | `loggedInUser?.name \|\| '系统登记'`; stated through App.Registered |
| App.NewTask | App.tsx:57-64 | the new task object; its fields are stated by App.Registered |
| App.AdvanceOne | App.tsx:79-91 | the per-task advance step; its effect is App.AdvanceOneStep, its invariants App.AdvanceOnePreservesWellFormed and App.AdvanceOnePreservesChronology |
| App.Advanced | App.tsx:73-92 | `advanceTask` on the list; characterised by App.AdvanceRejected, App.AdvancedPointwise, App.AdvanceFrame and App.AdvanceTakesEffectIffPermitted |
| App.PartsToggled | App.tsx:95-97 | `toggleSpareParts` on the list; characterised by App.PartsToggledFrame and App.PartsToggledTwice |
| App.RemarksUpdated | App.tsx:69-71 | `updateTaskRemarks` on the list; characterised by App.RemarksUpdatedFrame and App.RemarksUpdatedIdempotent |
| App.MatchesSearch | App.tsx:100-103 | the search test on one task; characterised by App.SearchedKeepsExactlyTheMatches |
| App.Searched | App.tsx:99-104 | the search filter; characterised by App.SearchedKeepsExactlyTheMatches and App.EmptySearchKeepsAll |
| App.LandingView | App.tsx:42-46 | the view chosen at login; characterised by App.DashboardRolesCloseEveryStage |
| App.HasFullAccess | App.tsx:107 | `hasFullAccess`; characterised by App.FullAccessIffDashboardLanding |
| App.FullAccessIffDashboardLanding | App.tsx:107 | full access is held by exactly the logged-in users routed to the dashboard |
| App.RepairShop.constructor | App.tsx:14-17 | start-up state: a given list of well-formed tasks in place of the mock start-up list, nobody logged in, dashboard view, empty search |
| App.RepairShop.HandleLogin | App.tsx:39-47 | the user is logged in; managers and consultants land on the dashboard, every other role on the worker view; tasks and search are unchanged |
| App.RepairShop.HandleLogout | App.tsx:49-53 | nobody is logged in and the view is the dashboard |
| App.RepairShop.SetSearchTerm | App.tsx:17 | the search term is replaced |
| App.RepairShop.AddTask | App.tsx:55-67 | the task list becomes the registered list and stays well-formed |
| App.RepairShop.UpdateTaskRemarks | App.tsx:69-71 | the task list becomes the remarks-updated list and stays well-formed |
| App.RepairShop.ToggleSpareParts | App.tsx:95-97 | the task list becomes the toggled list and stays well-formed |
| App.RepairShop.AdvanceTask | App.tsx:73-93 | the task list becomes the specified advance result and stays well-formed |
| App.RepairShop.FilteredTasks | App.tsx:99-104 | the shown list is an ordered sublist of the tasks, and all of them when the term is empty |
| WorkingHours.Normalize | components/ManagerDashboard.tsx:27-35 | the start moves to the first working instant at or after it: unchanged inside 09:00-18:00, otherwise the next 09:00, with no working instant skipped |
| WorkingHours.DeadlineFrom | components/ManagerDashboard.tsx:37-53 | the deadline is never before the pointer and its time of day lies in [09:00, 18:00] |
| WorkingHours.WorkingHoursDeadline | components/ManagerDashboard.tsx:21-55 | the loop computes the specified deadline, never before the start, at a time of day in [09:00, 18:00] |
| WorkingHours.Deadline | components/ManagerDashboard.tsx:21-55 | `getWorkingHoursDeadline` as a function; computed by WorkingHours.WorkingHoursDeadline and characterised by the lemmas below |
| WorkingHours.DeadlineOfNothing | components/ManagerDashboard.tsx:27-54 | zero hours give the normalised start |
| WorkingHours.DeadlineFromIsClosedForm | components/ManagerDashboard.tsx:37-53 | the loop equals the closed form: same day if the need fits before 18:00, else the first day's remainder plus k full 9-hour days plus the rest after 09:00 |
| WorkingHours.NextDayClosedForm | components/ManagerDashboard.tsx:48-51 | one carry-over step to the next 09:00 agrees with the closed form |
| WorkingHours.DeadlineFromMonotone | components/ManagerDashboard.tsx:37-53 | more milliseconds to place never give an earlier deadline |
| WorkingHours.DeadlineMonotone | components/ManagerDashboard.tsx:21-55 | more hours never give an earlier deadline |
| WorkingHours.DeadlineCases | components/ManagerDashboard.tsx:41-52 | the same-day case ends at start plus hours; the carry-over case continues from the next 09:00 with the remainder and ends on a later day |
| WorkingHours.MondayExamples | components/ManagerDashboard.tsx:21-55 | 10:00 + 4 h is 14:00; 16:00 + 4 h is 11:00 next day; 20:00 + 4 h is 13:00 next day |
| WorkerDashboard.Visible | components/WorkerDashboard.tsx:153-159 | the worklist test; characterised by WorkerDashboard.WorklistByRole |
| WorkerDashboard.Worklist | components/WorkerDashboard.tsx:152-160 | the worklist; characterised by WorkerDashboard.WorklistMembers and WorkerDashboard.WorklistByRole |
| WorkerDashboard.IsAllowedToAdvance | components/WorkerDashboard.tsx:37 | the card's advance test, defined as the advance guard Types.MayAdvance; see WorkerDashboard.ButtonIffAdvanceTakesEffect |
| WorkerDashboard.IsAllowedToToggleParts | components/WorkerDashboard.tsx:38 | the card's toggle test; characterised by WorkerDashboard.ToggleRolesSeeEveryUnfinishedTask |
| WorkerDashboard.IsOverdue | components/WorkerDashboard.tsx:39 | `now > expectedDeliveryTime`; see ManagerDashboard.OverdueCardsAreCounted and ManagerDashboard.UnfinishedNeverDeliveredOnTime |
| WorkerDashboard.IsSmallRepair | components/WorkerDashboard.tsx:40 | amount below 2000, the same test as the manager dashboard's `isSmallRepair`; see ManagerDashboard.AssessmentDeadlineBounds |
| WorkerDashboard.WorklistMembers | components/WorkerDashboard.tsx:152-160 | the worklist is an ordered sublist holding exactly the visible tasks, never a finished one |
| WorkerDashboard.WorklistByRole | components/WorkerDashboard.tsx:150-158 | managers, consultants and the spare-parts desk see every unfinished task; the metalworker sees exactly the metalwork tasks, the painter exactly the painting tasks |
| WorkerDashboard.WorklistAndPermissions | components/WorkerDashboard.tsx:150-158 | every role but the spare-parts desk may complete every task it sees; the spare-parts desk may complete none |
| WorkerDashboard.ButtonIffAdvanceTakesEffect | components/WorkerDashboard.tsx:37 | the complete button shows on the first task with an id exactly when the advance would change it |
| WorkerDashboard.ToggleRolesSeeEveryUnfinishedTask | components/WorkerDashboard.tsx:38 | the roles allowed to toggle parts are exactly those whose worklist shows every unfinished task |
| ManagerDashboard.AssessmentTarget | components/ManagerDashboard.tsx:82 | `targetTime`: 4 for a small repair, 48 up to 10000, none above; decides ManagerDashboard.CheckTask's eligibility |
| ManagerDashboard.AssessmentDeadline | components/ManagerDashboard.tsx:85-87 | the assessment deadline; see ManagerDashboard.AssessmentDeadlineBounds |
| ManagerDashboard.AssessmentFinish | components/ManagerDashboard.tsx:81-88 | the first closed assessment end or now; see ManagerDashboard.AssessmentFinishOfWellFormed |
| ManagerDashboard.AssessmentPassed | components/ManagerDashboard.tsx:83-90 | the assessment pass test; see ManagerDashboard.PassedWithinEligible |
| ManagerDashboard.FinishInstant | components/ManagerDashboard.tsx:77-78 | `actualFinishTime`; see ManagerDashboard.FinishInstantOfWellFormed |
| ManagerDashboard.DeliveryEligible | components/ManagerDashboard.tsx:93 | delivery eligibility; see ManagerDashboard.UnfinishedNeverDeliveredOnTime |
| ManagerDashboard.DeliveryPassed | components/ManagerDashboard.tsx:93-96 | the delivery pass test; see ManagerDashboard.UnfinishedNeverDeliveredOnTime and ManagerDashboard.PassedWithinEligible |
| ManagerDashboard.FastRepairPassed | components/ManagerDashboard.tsx:99-105 | the fast-repair pass test; see ManagerDashboard.PassedWithinEligible |
| ManagerDashboard.AssessmentOverdue | components/ManagerDashboard.tsx:108-115 | `isAssOver`; counted through ManagerDashboard.CountsOverdue |
| ManagerDashboard.CountsOverdue | components/ManagerDashboard.tsx:108-116 | the overdue counter's test; see ManagerDashboard.OverdueCardsAreCounted |
| ManagerDashboard.FindClosedAssessment | components/ManagerDashboard.tsx:81 | finds nothing exactly when no interval is a closed assessment; otherwise a closed assessment interval of the history |
| ManagerDashboard.FindClosedAssessmentIsFirst | components/ManagerDashboard.tsx:81 | the search returns the first closed assessment interval |
| ManagerDashboard.AssessmentFinishOfWellFormed | components/ManagerDashboard.tsx:81-88 | on a well-formed task, the assessment finish is now while in assessment, and afterwards the end of the first interval when that is not zero |
| ManagerDashboard.FinishInstantOfWellFormed | components/ManagerDashboard.tsx:77-78 | on a well-formed task, the finish instant is now while unfinished, and the end of the delivery interval once finished, when that is not zero |
| ManagerDashboard.UnfinishedNeverDeliveredOnTime | components/ManagerDashboard.tsx:93-96 | an unfinished task is delivery-eligible exactly when overdue, and never passes |
| ManagerDashboard.AssessmentDeadlineBounds | components/ManagerDashboard.tsx:85-87 | the assessment deadline is never before registration; for a small repair it falls within working hours |
| ManagerDashboard.RoundedRatio | components/ManagerDashboard.tsx:126-128 | the integer rounding formula gives the nearest integer to the percentage, within [0, 100] when passed is at most eligible |
| ManagerDashboard.Rate | components/ManagerDashboard.tsx:126-128 | 100 with nothing eligible; otherwise the nearest integer to 100·passed/eligible with halves up; a percentage when passed is at most eligible |
| ManagerDashboard.PassedWithinEligible | components/ManagerDashboard.tsx:83-105 | for each of the three checks, passed is at most eligible |
| ManagerDashboard.StatsOf | components/ManagerDashboard.tsx:61-130 | overdue is at most the task count, parts-lacking is at most active is at most the task count, and every rate is in [0, 100] |
| ManagerDashboard.CheckTask | components/ManagerDashboard.tsx:74-117 | the body of the walk decides each task's eligibility, pass and overdue flags as the per-task checks specify |
| ManagerDashboard.ComputeStats | components/ManagerDashboard.tsx:61-130 | the walk with its counters computes the specified figures |
| ManagerDashboard.OverdueCardsAreCounted | components/ManagerDashboard.tsx:108-116 | every task past its expected delivery time counts as overdue, finished or not |
| ManagerDashboard.ActiveIsManagementWorklist | components/ManagerDashboard.tsx:62 | the active count is the length of the managers' worklist |
| ManagerDashboard.TotalAmountNonNegative | components/ManagerDashboard.tsx:119 | with no negative amount the total amount is not negative |
| ManagerDashboard.StatsOfNoTasks | components/ManagerDashboard.tsx:119-128 | with no tasks every counter is zero and every rate is 100 |
| Seqs.Filter | App.tsx:100 | `Array.prototype.filter`: an ordered sublist of the input whose members satisfy the test (Seqs.FilterIsSubsequence, Seqs.FilterKeeps) |
| Seqs.IndexOf | App.tsx:80 | `Array.prototype.indexOf`: -1 exactly when absent, otherwise the first position of the element |
| Text.Lower | App.tsx:101-102 | `toLowerCase` on ASCII letters: same length, each character folded, no upper-case letter left |
| Text.Includes | App.tsx:101-102 | `includes`; characterised by Text.IncludesIffOccurs |
| Text.IncludesIffOccurs | App.tsx:101-102 | the scan finds the term exactly when it occurs at some position |

## Left out

- Persistence and session restore through `localStorage` (App.tsx:22-37, 41, 51) are storage I/O. The saved task list is written but never read back.
- App.RepairShop.constructor takes any list of well-formed tasks. The source starts from the mock list `INITIAL_TASKS`, which is outside `Valid()`: its tasks have no `createdAt`, leave one-hour gaps between intervals, and a finished mock task ends with an open FINISHED interval. The model promises nothing about that start-up state.
- All rendering is left out: JSX, charts, modals, the mobile menu and the local editing state of the task cards.
- The trend tables and the `remainingHours` badge of the manager dashboard are display only.
- `toLocaleString` and `toLocaleDateString` formatting is display only. `totalAmount` is kept as the number before formatting.
- The mock data and colour tables of `constants.ts` are left out. Their tasks do not have the `RepairTask` shape.
- The administrative forms of `components/MaintenanceView.tsx` are left out. They hold no workflow logic.
- Real local-time `Date` behaviour is not modelled. Time zones and daylight-saving changes are replaced by the fixed UTC+8 offset and 24-hour days.
- App.RepairShop.AdvanceTask: `advanceTask` reads the clock twice, for the closing `endTime` and for the new interval's `startTime`. The model uses one `now` for both.
- App.RepairShop.AdvanceTask: the guard reads `tasks` while the update maps `prev`. That is a React scheduling concern, so both are the same list here.
- App.RepairShop.AdvanceTask: the shallow history copy shares its entry objects with the previous state, so setting `endTime` also changes the old state's entry. Histories are values here, and that aliasing is not reproduced.
- ManagerDashboard.ComputeStats: the `stats` memo reads the clock separately at each use (the finish instant, the assessment finish, delivery eligibility and both overdue tests). The model uses one `now` for the whole evaluation.
- App.RepairShop.AdvanceTask requires every task to be well-formed. On a task with an empty history the source would throw when it sets `endTime`, so such tasks are outside the model.
- App.RepairShop.AddTask takes the random id (`Math.random`) as a parameter. The form's fields are the `TaskDraft` datatype.
- App.SearchedKeepsExactlyTheMatches: `toLowerCase` folds only ASCII letters. Unicode case mapping is not modelled.
- ManagerDashboard.Rate: the source divides and multiplies in floating point before `Math.round`. The model computes the exact rounded percentage, so a float error at an exact half is not reproduced.
- WorkingHours.WorkingHoursDeadline takes whole hours. Fractional `hoursNeeded` values never occur in the source's calls (4 and 8).
- Weekends and holidays are not excluded from working days. The source does not exclude them either.
