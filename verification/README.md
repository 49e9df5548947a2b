# HL Central: model and proofs

A Dafny model of the logic at the core of HL Central, a task-management service, with proofs of what
that logic promises. Database tables are finite maps and sets, instants are whole milliseconds since
1970, and recursive SQL is the fixpoint it computes. Code that works by changing things step by step is
modelled as methods and classes proved against specification functions; the lemmas are about those
functions and about whole runs.

`dafny verify dfyconfig.toml` checks the project.

| module | what it models |
|---|---|
| OrgChart, OrgChanges | the supervisor chart, which may contain loops; batches of moves and duty changes saved on it, alone and side by side |
| TaskAccess | who may see or edit a task: one at a time, and for a whole list at once |
| Relationships, RelationshipProtocol, RelationshipEffects | parent and dependency edits with their loop checks, the interleavings of locked and unlocked writers, and what each of them writes |
| Calendar, WeeklySchedule, Recurrence | calendar arithmetic in UTC, the weekly enumeration, and the walks over a schedule |
| SchedulerPass, SchedulerRuns | one scheduler pass, the overdue measurement, the next wake; sequences of passes and concurrent ones |
| SchedulerLateness | what the wake waits for, and the lateness passes at their wakes report |
| Forest, TemplateTree, TemplateReconcile | listing rows in tree order, validating a template payload, saving it in place |
| TreeCopy | generating a template's tasks and duplicating a task with what lies below it |
| TemplateToTasks | a payload saved and then generated, end to end: when the tasks are the payload over again, and when they wait for each other in a loop |
| ReviewWorkflow | the rules of editing: terminal and Review locks, entering and leaving Review |
| NestedSearch | the nested task list and its pages |
| DateHistory | merged history entries of date changes |
| BusinessTime | calendar dates in the business timezone, for an arbitrary zone |
| Csv | the CSV writer, undone by a reader |
| Graphs, Entities, Wrappers | reachability and loops; ids, instants and statuses; Option and Result |

## What the proofs turned up

These follow from the code as it stands; each has a lemma with an input or an exact condition.

- Template validation drops repeated dependencies by comparing the text `blocker->blocked`. Keys are free
  text, so two different edges can share it and a dependency cycle can be accepted
  (`TemplateTree.AcceptanceIsRightIff`, `TemplateTree.AnAcceptedCycle`).
- Saving a template stores all of the payload's dependencies, the dropped ones included, and generating it
  copies all that is stored. So the tasks of an accepted template can wait for each other in a loop; payload
  nodes that share an id can close one too, with ordinary keys (`RelationshipProtocol.NeverALoopIff`,
  `TemplateToTasks.SaveAndGenerate`, `TemplateToTasks.ARunToALoop`, `TemplateToTasks.ASharedIdMakesALoop`).
- Edits of a task read the row and write it in a second step. An edit that read an open row can take a row that
  has since entered Review out of it, leaving the review record behind, or change a finished row's assignee
  (`ReviewWorkflow.ReadProtectsReviewIff`, `ReviewWorkflow.ReadProtectsFinishedIff`, `ReviewWorkflow.OvertakenEdit`).
- Batches of supervisor moves are checked before their transaction, without a lock: two that overlap can close a
  loop together, and a Manager's batch that kept within the team can move someone out of it by the time it is
  written (`OrgChanges.BatchesKeepNoLoopIff`, `OrgChanges.TwoBatchesCloseALoop`, `OrgChanges.BatchesKeepTeamIff`,
  `OrgChanges.AManagersBatchLosesAMember`).
- The next wake does not look at tasks that recur on completion: it comes within a minute of such a copy being due
  exactly when the six-hour ceiling does or something else waits for a moment before then. A copy can so be made
  six hours late, less a millisecond, which is more than the lateness the health check alerts on
  (`SchedulerLateness.WakeIsSoonIff`, `SchedulerLateness.ALateCopy`).
- Deleting a copy of a recurring task frees its number, and the next pass makes it again. Nothing stamps the
  deletion, so the scheduler is reported late by all the time since that copy first fell due. That is the only
  cause: where every pass runs at its wake and none fails, whatever else people edit, click or delete in between,
  nothing is reported late by a minute, and no copy of a task recurring on completion by six hours
  (`SchedulerLateness.ReportLateIff`, `SchedulerLateness.ADeletedCopy`, `SchedulerLateness.ADeletedLatestCopy`).
- A task recurring on completion that is created already Completed records no completion time, and each pass takes
  its own moment for it: its series never advances if the interval, whenever it is begun, is longer than the lead
  time (`SchedulerLateness.NeverAdvancesIff`).
- Leaving Review reads the row, lets the ordinary edit read it again, and then writes it. It puts back what the row
  was before Review exactly when the second reading was in Review and the first one agrees with the row as written
  on what was prior. Otherwise an outdated assignee and status return, even over a finished row, or the review record
  stays behind (`ReviewWorkflow.ExitRestores`, `ReviewWorkflow.OvertakenExit`, `ReviewWorkflow.AnExitThatLeavesTheRecord`).
- A row created directly in Review leaves it with nobody assigned (`ReviewWorkflow.CreatedInReviewLeavesUnassigned`).
- An exit from Review is refused when start is not before due. Nothing compares the two offsets of a template node,
  and saving a template's changes to its open tasks does not check the order either; a review so disordered can be
  ended by nobody until the dates are edited, whether the task was made so or saved so since
  (`ReviewWorkflow.ReviewCannotEndIff`, `ReviewWorkflow.ASaveThatHoldsAReview`).
- Two people dragging the same date by turns can break the merged history's chain
  (`DateHistory.AlwaysAChainIff`, `DateHistory.TwoPeopleBreakTheChain`).
- In the nested list, rows on a loop of parent links, and everything below them, would be missing
  (`NestedSearch.ListsEveryMatchIffNoLoop`); the writers never leave such a loop
  (`RelationshipProtocol.NeverItsOwnAncestor`), so in a database only they have written nothing is.
- Where clocks jump over midnight, or fall back to show it twice, the end of a business day is wrong but for
  two harmless cases. A typed date in years 0 to 99 ends nineteen centuries late; any other whose next day has a
  year of three digits or of five has no end at all (`BusinessTime.EndOfBusinessDayIsItsLastMoment`,
  `BusinessTime.EndNineteenCenturiesLate`, `BusinessTime.NoEnd`, `BusinessTime.MidnightJumpEndsTheDayEarly`).
- `Date.UTC` reads years 0 to 99 as 1900 to 1999, which shows in month clamping, in adding calendar days and
  in weekly schedules (`Recurrence.AddMonthsClamps`, `BusinessTime.AddsExactlyThatManyDays`, `WeeklySchedule.WeeklyIsTheEnumeration`);
  a zone's offset is misread there too (`BusinessTime.OffsetIsReadIff`).
- A CSV document without lines, or with a row of no cells, does not read back (`Csv.ReadsBackIff`).

## Model

| member | source | states |
|---|---|---|
| OrgChart.GetSupervisorChainIds | backend/src/services/access-control.service.ts:32-49 | Exactly the other people above someone, each once, nearest first (entry i is i + 1 steps up), on any chart including one with loops; always ends. |
| OrgChart.IsInSupervisorChain | backend/src/services/access-control.service.ts:52-59 | True exactly when the actor is someone else, strictly above. |
| OrgChart.GetDownlineIds | backend/src/services/access-control.service.ts:65-84 | Exactly the other people below someone, each once, on any chart; always ends. |
| OrgChart.ChainAndDownlineAgree | backend/src/services/access-control.service.ts:32-84 | For different people, being in the upward chain and being in the downline are the same thing, loops or not. |
| TaskAccess.RecursiveBelow | backend/src/services/access-control.service.ts:118-128 | The downward recursive query computes exactly the tasks strictly below a seed, on any parent column. |
| TaskAccess.RecursiveAbove | backend/src/services/access-control.service.ts:131-141 | The upward recursive query computes exactly the tasks strictly above a seed. |
| TaskAccess.HasDownwardTreeAccess | backend/src/services/access-control.service.ts:159-170 | Some strict ancestor is assigned within the given people, private or not. |
| TaskAccess.HasUpwardTreeAccess | backend/src/services/access-control.service.ts:177-195 | Some strict descendant is assigned within the given people, or is open and mentions the actor. |
| TaskAccess.ComputeTaskAccess | backend/src/services/access-control.service.ts:219-239 | The four outcomes in the product's words: full for administrators and whoever the task or somebody below them is assigned to, nothing more on a private task, comment where mentioned, tree with a task above or below that is theirs or an open one below mentions them, else none. |
| TaskAccess.LevelInWords | backend/src/services/access-control.service.ts:219-239 | The rule the batch scope is compared with is that one. |
| TaskAccess.GetTaskAccessScope | backend/src/services/access-control.service.ts:377-411 | The batch scope holds the owned, the mentioned and the inherited tasks; its upward seeds include the downward-inherited ones. |
| TaskAccess.WiderSeedAddsNothing | backend/src/services/access-control.service.ts:377-411 | Those extra seeds change nothing: two ancestors of one task are comparable, so an ancestor reached that way is itself inherited. |
| TaskAccess.ScopeAgrees | backend/src/services/access-control.service.ts:442-452 | For every actor, chart and parent column the level read off the batch scope equals the per-task decision, private tasks included. |
| TaskAccess.ListShowsExactlyTheVisible | backend/src/services/access-control.service.ts:413-430 | A list query with read-only rows selects exactly the visible tasks, without them exactly the fully editable ones. |
| TaskAccess.PrivateOverridesInheritance | backend/src/services/access-control.service.ts:219-239 | A private task is visible to nobody beyond admins, its assignee and the people above the assignee. |
| Relationships.WouldCreateAncestryCycle | backend/src/services/task.relationships.service.ts:67-85 | The upward walk answers exactly whether the new parent lies at or below the child, even if a loop is already there; it ends. |
| Relationships.WouldCreateDependencyCycle | backend/src/services/task.relationships.service.ts:207-227 | The graph search answers exactly whether the blocked end already reaches the blocker. |
| Relationships.MoveParent | backend/src/services/task.relationships.service.ts:67-85 | Replacing a parent keeps the tree loop-free exactly when the new parent is not at or below the child. |
| Relationships.RefusalsInWords | backend/src/services/task.relationships.service.ts:49-60 | Editing takes a task that is there and full access, linking any access; each refusal is given in just its case. |
| Relationships.Relations.SetParent | backend/src/services/task.relationships.service.ts:87-135 | Goes through exactly with full access to the task, any to the parent, two different tasks that are there, and no loop in the result, and then only that one parent changes; refused for the first that fails. |
| Relationships.Relations.AddDependency | backend/src/services/task.relationships.service.ts:264-298 | Goes through exactly with full access to the task, any to the other, two different tasks that are there, and no loop in the result, and then only that edge is added; refused for the first that fails. |
| RelationshipProtocol.DropKeepsInv | backend/src/services/task.relationships.service.ts:171-187 | An unlocked writer that only drops edges leaves every check already made by a running locked writer valid. |
| RelationshipProtocol.InsertKeepsInv | backend/src/services/task.relationships.service.ts:148-169 | So does one that adds fresh rows with edges leaving them. |
| RelationshipProtocol.CommitKeepsInv | backend/src/services/task.relationships.service.ts:98-110 | A check that passed, one read at a time, still holds when its edge is written. |
| RelationshipProtocol.ClonesWellMade | backend/src/services/task.service.ts:815-848 | The parent links of a duplicate join fresh rows without a loop and touch no older row, whatever was read in between. |
| RelationshipProtocol.CommitCopyKeepsInv | backend/src/services/task.service.ts:852-862 | The dependencies a duplicate carries over close no loop, even when edges change between its reads. |
| RelationshipProtocol.InsertTreeKeepsInv | backend/src/services/template-instantiation.service.ts:146-206 | Generating a template's tasks keeps the parent links loop-free, and the dependencies exactly when the template's own between its nodes are. |
| RelationshipProtocol.StepKeepsInv | backend/src/services/task.relationships.service.ts:25-42 | Every action of every writer keeps the rows intact, the parent links loop-free, one lock holder, and every running check valid; it keeps the dependencies loop-free exactly unless it generates a template with a loop of its own. |
| RelationshipProtocol.NeverItsOwnAncestor | backend/src/services/task.relationships.service.ts:25-42 | In every interleaving of locked and unlocked writers, crashes included, no reachable state has a loop of parent links. |
| RelationshipProtocol.NeverALoopIff | backend/src/services/task.relationships.service.ts:25-42 | In every such run neither graph has a loop at any moment, exactly when no template generated in it has a loop of dependencies. |
| RelationshipEffects.SetParentTakesEffect | backend/src/services/task.relationships.service.ts:98-110 | In any run the commit of a setParent makes that task the other's parent and leaves every other link, every dependency and every other writer as they were; with either row gone it writes nothing. |
| RelationshipEffects.AddDependencyTakesEffect | backend/src/services/task.relationships.service.ts:276-294 | In any run the commit of an addDependency adds just that edge. |
| RelationshipEffects.SetParentEnds | backend/src/services/task.relationships.service.ts:98-110 | In any run a setParent that is not aborted commits only when no way leads from the new parent up to the task at that moment, and ends without writing only when that parent was set already or such a way was there when it took the lock. |
| RelationshipEffects.AddDependencyEnds | backend/src/services/task.relationships.service.ts:276-294 | The same of an addDependency. |
| RelationshipEffects.SetParentAlone | backend/src/services/task.relationships.service.ts:87-135 | Run alone it sets that parent and nothing else exactly when this closes no loop, and otherwise changes nothing. |
| RelationshipEffects.AddDependencyAlone | backend/src/services/task.relationships.service.ts:264-298 | The same of an addDependency. |
| RelationshipEffects.SetParentBothWays | backend/src/services/task.relationships.service.ts:87-135 | The transaction run alone leaves the same tables as the operation modelled as one step. |
| RelationshipEffects.AddDependencyBothWays | backend/src/services/task.relationships.service.ts:264-298 | The same of an addDependency. |
| RelationshipEffects.CanEnd | backend/src/services/task.relationships.service.ts:25-42 | Whoever holds the lock can reach its end by its own steps, whatever the tables hold: no walk goes on for ever. |
| RelationshipEffects.CanRunAlone | backend/src/services/task.relationships.service.ts:25-42 | So a writer that starts with nobody there can run alone to its end. |
| RelationshipEffects.HappensWhenPossible | backend/src/services/task.relationships.service.ts:25-42 | Each step can happen exactly when the stated condition holds: rows there, the lock free, ids never used before, parents before children. |
| RelationshipEffects.CreateSubtaskAdds | backend/src/services/task.relationships.service.ts:148-169 | A sub-task is a new row, already below its parent, and no old row changes. |
| RelationshipEffects.ClearParentClears | backend/src/services/task.relationships.service.ts:171-187 | Only that parent goes. |
| RelationshipEffects.RemoveDependencyRemoves | backend/src/services/task.relationships.service.ts:300-318 | Only that edge goes. |
| RelationshipEffects.DeleteTaskDeletes | backend/src/services/task.service.ts:690-712 | The row goes, its children are at the top, its dependencies go with it, and nothing else changes. |
| RelationshipEffects.CommitCopyCopies | backend/src/services/task.service.ts:807-862 | A duplication's commit makes one new row for each original read, the root's below the root's own parent, every other below the copy made of its parent before it, and carries over just the dependencies read, or writes nothing when the root's parent is gone. |
| RelationshipEffects.CopyReads | backend/src/services/task.service.ts:786-862 | It reads the originals' parents when it starts and the dependencies among them later. |
| RelationshipEffects.InsertTreeInserts | backend/src/services/template-instantiation.service.ts:146-206 | Generating a template adds its tasks, each below its parent node's, with the template's dependencies between different nodes, and no old row changes. |
| OrgChanges.StageMoves | backend/src/services/org.service.ts:131-174 | A batch is refused for its first refused move in order, else staged move by move on a copy of the supervisor column. |
| OrgChanges.MoveRefusalIsReal | backend/src/services/org.service.ts:131-174 | A move passes exactly when the person is active and theirs, nobody changed the line meanwhile, and the new supervisor is someone else, active, a Manager or an administrator and of the same team; each refusal is given in just its case. |
| OrgChanges.LastMoveDecides | backend/src/services/org.service.ts:131-174 | Of several moves of one person the last decides; whoever is not moved keeps their supervisor. |
| OrgChanges.MeetsLoop | backend/src/services/org.service.ts:175-188 | The walk from one moved person answers exactly whether the chain above that person meets a loop. |
| OrgChanges.LoopsNeedAMovedPerson | backend/src/services/org.service.ts:175-188 | On a loop-free chart a batch makes a loop exactly when some moved person's chain meets one, so walking from moved people is enough. |
| OrgChanges.WalkCheckIsExact | backend/src/services/org.service.ts:175-188 | The check refuses exactly the staged charts that have a loop. |
| OrgChanges.TeamUnchanged | backend/src/services/org.service.ts:18-32 | Moving people only within a team leaves the set of people below its head unchanged, even when the chart has loops elsewhere. |
| OrgChanges.TeamUnchangedIff | backend/src/services/org.service.ts:18-32 | A change of supervisors that leaves no loop keeps the set of people below someone exactly when each person moved was below before if and only if the new supervisor is that someone or was below. |
| OrgChanges.Consequences | backend/src/services/org.service.ts:131-188 | An accepted batch keeps a loop-free chart loop-free and keeps a Manager's own team. |
| OrgChanges.CheckDuties | backend/src/services/org.service.ts:190-198 | The first person not manageable, else an inactive duty added, else a needed duty removed, decides the refusal of the duty changes. |
| OrgChanges.GivenMeans | backend/src/services/org.service.ts:200-215 | Someone holds a duty afterwards exactly if the last change naming it adds it, or if none does and they held it. |
| OrgChanges.Organization.Check | backend/src/services/org.service.ts:110-198 | Accepted exactly when the actor is no Member, every move is fine and meets no loop in the result, and every change of duties is of a person they may change, adds active duties only and removes none that is needed; else the first refused move, then loops, then duties. |
| OrgChanges.Organization.Commit | backend/src/services/org.service.ts:200-215 | On whatever rows are there by then, supervisors and duties change as staged and nothing else does, or nothing at all when a person or a duty it needs has gone. |
| OrgChanges.Organization.SaveOrgChanges | backend/src/services/org.service.ts:110-218 | Accepted in exactly that case, all or nothing, only supervisors and duties change and just as staged; loop-freedom and a Manager's team are kept. |
| OrgChanges.BatchesKeepNoLoopIff | backend/src/services/org.service.ts:122-215 | However batches overlap between check and write, a loop-free chart stays so at every moment exactly when each batch would still pass the walks on the chart it is written to. |
| OrgChanges.PassesWhenFine | backend/src/services/org.service.ts:122-215 | What a batch passes before its write is exactly what saving the same moves at once would have accepted. |
| OrgChanges.OrgStepMeans | backend/src/services/org.service.ts:122-215 | A check changes nobody and remembers exactly the moves that are fine; the write sets the supervisors as the last move of each says, or nothing when a row it needs has gone. |
| OrgChanges.TwoBatchesCloseALoop | backend/src/services/org.service.ts:122-215 | Two batches that both pass, each putting one person below the other, leave a loop when both are written. |
| OrgChanges.BatchesKeepTeamIff | backend/src/services/org.service.ts:122-215 | As long as no loop arises, the people below someone stay the same at every moment exactly when every batch keeps within them on the chart it is written to. |
| OrgChanges.AManagersBatchLosesAMember | backend/src/services/org.service.ts:122-215 | A Manager's batch puts one report below another and passes; an administrator's batch takes the other out of the team first; written after it, the Manager's batch takes the first out too, with no loop anywhere. |
| Calendar.MidnightThroughDateUtc | backend/src/services/recurrence.ts:59-61 | Rebuilding midnight from year, month and day is exact exactly outside years 0 to 99. |
| Calendar.UtcYears | backend/src/services/recurrence.ts:59-61 | The date built from a year and a month is in that month, but for the years 0 to 99, which are taken for 1900 to 1999. |
| Calendar.KnownMonths | backend/src/services/recurrence.ts:34-44 | The firsts of the months of 2023 and 2024 have their known day numbers. |
| WeeklySchedule.ScanWeek | backend/src/services/recurrence.ts:82-89 | One week of the enumeration counts its schedule days in order and stops at the wanted one. |
| WeeklySchedule.EnumerateWeeks | backend/src/services/recurrence.ts:78-91 | The enumeration finds the wanted day within the weeks it visits, or gives up exactly when it lies beyond them. |
| WeeklySchedule.WeeklyByWeekdayDate | backend/src/services/recurrence.ts:71-92 | The loop computes the specified date of every sequence number, or throws exactly when that is out of range. |
| WeeklySchedule.WeeklyIsTheEnumeration | backend/src/services/recurrence.ts:63-92 | Every sequence number n from 2 to 200000 is the (n - 1)-th date after the anchor's day that falls on a selected weekday in a visited week, at the anchor's time, exactly when the anchor's year is not from 0 to 99 or every day of every week is selected. |
| WeeklySchedule.OneWeekdayIff | backend/src/services/recurrence.ts:59-92 | With one weekday selected, every later occurrence falls on that weekday exactly when the anchor's year is not from 0 to 99. |
| WeeklySchedule.WeeklyInRange | backend/src/services/recurrence.ts:79-91 | No sequence number up to 200000 is out of range. |
| WeeklySchedule.WeeklyIncreases | backend/src/services/recurrence.ts:71-92 | Weekly dates strictly increase with the sequence number, for every anchor. |
| WeeklySchedule.NthDaysIncrease | backend/src/services/recurrence.ts:63-70 | Counting schedule days names later days for larger numbers: nothing skipped, repeated or reordered. |
| WeeklySchedule.ScheduleIs | backend/src/services/recurrence.ts:71-90 | A day is on the schedule exactly when it is some selected weekday of a week a whole number of intervals after the anchor's. |
| WeeklySchedule.NthDayIs | backend/src/services/recurrence.ts:78-91 | Sequence number n is exactly the schedule day after the anchor's day with n - 2 schedule days between them. |
| Recurrence.StepMonths | backend/src/services/recurrence.ts:36-44 | The edits of a local date compute the stepped date. |
| Recurrence.AddMonthsLands | backend/src/services/recurrence.ts:34-44 | Adding months lands in exactly the target month, at the same time of day, on the clamped day. |
| Recurrence.AddMonthsClamps | backend/src/services/recurrence.ts:34-44 | The clamp is to the target month's real length for every date except the 29th and later stepping into February of year 0. |
| Recurrence.MonthStepsNeverDrift | backend/src/services/recurrence.ts:34-44 | A step from the anchor returns to the anchor's own day wherever the month is long enough, however many steps. |
| Recurrence.AddMonthsIncreases | backend/src/services/recurrence.ts:36-44 | More months is strictly later. |
| Recurrence.MonthsTakeAtLeast | backend/src/services/recurrence.ts:34-44 | A step of months, clamped or not, never takes fewer days than some run of as many whole months, but for one into February of year 0. |
| Recurrence.IntervalIsThatLong | backend/src/services/recurrence.ts:34-61 | Adding an interval gives just the moment so many days or weeks later, or so many months or years later on the same day of the month or the last one read for it, at the same time of day. |
| Recurrence.NthAnchor | backend/src/services/recurrence.ts:99-115 | Without weekdays, number n of a schedule lies exactly n - 1 intervals after the anchor date, counted in days, weeks, months or years. |
| Recurrence.NthWeekdayAnchor | backend/src/services/recurrence.ts:63-115 | With weekdays, number 1 is the anchor date and number n the (n - 1)-th selected day of a visited week after it, at its time, outside years 0 to 99; weekdays of which none is a day of the week give weekly steps. |
| Recurrence.NoAnchorMeans | backend/src/services/recurrence.ts:104-115 | There is no anchor exactly for a schedule that is not Fixed or lacks a date, unit or interval, and with weekdays only for a number outside 1 to 200000. |
| Recurrence.FixedAnchorForSeq | backend/src/services/recurrence.ts:104-115 | The anchor exactly n - 1 intervals after the anchor date where there are no weekdays, the specified one where there are, and a throw exactly when the schedule is not Fixed, not complete or out of range. |
| Recurrence.AnchorsIncrease | backend/src/services/recurrence.ts:104-115 | Every complete schedule has an anchor for each number up to the cap and anchors strictly increase. |
| Recurrence.FirstAnchor | backend/src/services/recurrence.ts:104-115 | Occurrence 1 is the anchor date itself, for every schedule but a monthly or yearly one anchored on 29 February of year 0. |
| Recurrence.EndConditions | backend/src/services/recurrence.ts:117-131 | A series limited to k occurrences has exactly the first k, one with an end date exactly those anchored by then, an endless one every number. |
| Recurrence.EarlierToo | backend/src/services/recurrence.ts:122-149 | What is scheduled and within the lead window at one number is so at every smaller one: the reason both walks may stop early. |
| Recurrence.DueFixedSeqs | backend/src/services/recurrence.ts:151-176 | The early-exit walk returns exactly the allowed, within-lead, unfired numbers up to the cap, ascending. |
| Recurrence.UpcomingFixedSeqs | backend/src/services/recurrence.ts:178-199 | The preview lists exactly the smallest unfired allowed numbers with their anchors: all of them for a bounded series, the first 24 for an endless one. |
| SchedulerPass.SmallestOffset | backend/src/services/scheduler.service.ts:120-128 | The smallest start or due offset of a template's nodes, if any has one. |
| SchedulerPass.TemplateDueIff | backend/src/services/scheduler.service.ts:120-128 | What is due for a template: of a Fixed one every allowed number not there yet for which the start or due date of some node, counted from its anchor, is reached, lead time taken off, or the anchor where no node has dates; of one recurring on completion the number after the latest, one interval after that one's root task was completed. |
| SchedulerPass.SourceDueIff | backend/src/services/task-recurrence.service.ts:321-358 | The same of a recurring task and its anchors. |
| SchedulerPass.OneAtATime | backend/src/services/scheduler.service.ts:225-264 | A template recurring on completion has at most the next number pending, only once the one before it is Completed, anchored strictly after that. |
| SchedulerPass.OneCopyAtATime | backend/src/services/task-recurrence.service.ts:335-347 | The same for a recurring task, which is its own occurrence 1. |
| SchedulerPass.TemplateSettled | backend/src/services/scheduler.service.ts:268-297 | Once what is due for a template has been made, nothing is due for it at the same moment: the pass and the measurement ask the same question. |
| SchedulerPass.SourceSettled | backend/src/services/task-recurrence.service.ts:321-358 | The same for a recurring task. |
| SchedulerPass.SchedulerDb.FireOccurrence | backend/src/services/scheduler.service.ts:193-215 | One occurrence is made unless its key is taken, which makes nothing and is no error; a throw leaves the row or does not, as it comes after the commit or before. |
| SchedulerPass.SchedulerDb.MaterializeDueForTemplate | backend/src/services/scheduler.service.ts:268-297 | Makes exactly what the template should have by then in these words, each open and new; on a throw only some of that has been made. |
| SchedulerPass.SchedulerDb.MaterializeDueForSource | backend/src/services/task-recurrence.service.ts:321-358 | Makes exactly what the recurring task should have by then in these words; on a throw only some of that has been made. |
| SchedulerPass.SchedulerDb.MeasureTemplate | backend/src/services/scheduler.service.ts:352-376 | One item for each number due, in order, with the moment it became eligible and the latest moment anything it rests on was set; throws exactly on an incomplete active Fixed template. |
| SchedulerPass.SchedulerDb.MeasureSource | backend/src/services/scheduler.service.ts:378-420 | The same for a recurring task, which cannot be incomplete. |
| SchedulerPass.TemplateItemMeans | backend/src/services/scheduler.service.ts:345-376 | An item's first moment is the first at which a date of the occurrence's tasks less the lead time is reached; it was set up at the first moment by which the template, its nodes, the lead time and the completion before it were all set. |
| SchedulerPass.SourceItemMeans | backend/src/services/scheduler.service.ts:378-420 | The same for a recurring task, whose copies wait for the copy before or for the task itself. |
| SchedulerPass.SchedulerDb.MeasureOverdue | backend/src/services/scheduler.service.ts:342-432 | The reports of all templates, then all recurring tasks, then the overdue goals; empty exactly when nothing is overdue. |
| SchedulerPass.GoalItemsMean | backend/src/services/scheduler.service.ts:424-428 | The goals reported are exactly the approved ones whose deadline has come, each since its deadline and set up when last written. |
| SchedulerPass.LateForScheduler | backend/src/services/scheduler.service.ts:434-449 | The largest lateness over just the items set up by the last run, counted from when each fell due or was set up. |
| SchedulerPass.SchedulerDb.RunGoalReviewPass | backend/src/services/goal.service.ts:366-379 | Exactly the approved goals past their deadline move to review with their deadline kept, each other goal stays as it is. |
| SchedulerPass.SchedulerDb.DoDueWork | backend/src/services/scheduler.service.ts:591-621 | The materializing part: what was due is made for every series that did not throw, nothing else is, goals are reviewed one by one, and the count is the number of new rows, short only where a series threw part-way. |
| SchedulerPass.SchedulerDb.RunScheduler | backend/src/services/scheduler.service.ts:561-673 | A pass leaves nothing overdue for any series that did not throw, makes only what was due, counts it, and does nothing when nothing was overdue; its wake lies one minute to six hours ahead, is one somebody waits for, and is never too late. |
| SchedulerPass.FirstFuture | backend/src/services/scheduler.service.ts:518-526 | The eligible time of the first unfired occurrence not eligible yet; for a series with nothing overdue it bounds that of every unfired occurrence. |
| SchedulerPass.PreviewCoversSoonest | backend/src/services/scheduler.service.ts:520-526 | Looking only at the ghost preview loses nothing: no unlisted occurrence comes before the first listed one. |
| SchedulerPass.SchedulerDb.ComputeNextWakeAt | backend/src/services/scheduler.service.ts:481-559 | The ceiling or a moment some series or goal waits for, pushed back to the minimum sleep; never later than a goal's deadline, the pending occurrence of a template recurring on completion, or any unfired Fixed occurrence of a settled series allows; throws exactly on an incomplete active Fixed template. |
| SchedulerPass.AskedMeans | backend/src/services/scheduler.service.ts:489-554 | What the wake looks at is always ahead: a goal's deadline, a moment passed in, or what a template or a task waits for. |
| SchedulerPass.TemplateAsksMeans | backend/src/services/scheduler.service.ts:510-533 | A Fixed template waits for its first occurrence eligible later than now, one that recurs on completion for the one pending, an interval after the last completion. |
| SchedulerPass.SourceAsksMeans | backend/src/services/scheduler.service.ts:538-554 | A Fixed task waits for its first copy eligible later than now; one that recurs on completion asks for nothing. |
| SchedulerPass.UnfiredMeans | backend/src/services/scheduler.service.ts:515-526 | An occurrence is still to be made exactly when its template is active and Fixed, the end condition allows its number and anchor, and it is not there. |
| SchedulerRuns.FiresOnTime | backend/src/services/scheduler.service.ts:481-559 | When each pass runs at the wake the one before computed, an occurrence that is there for the first time was clicked, or a pass made it no earlier than its eligible time and less than a minute after. |
| SchedulerRuns.TemplateFiresOnTime | backend/src/services/scheduler.service.ts:481-559 | For a template that is when the start or due date of some node, lead time taken off, is reached, and a minute before none was. |
| SchedulerRuns.CopyFiresOnTime | backend/src/services/task-recurrence.service.ts:321-377 | For a recurring task that is within a minute from the anchor less the lead time. |
| SchedulerRuns.MadeOnTime | backend/src/services/scheduler.service.ts:481-559 | Whatever people click or delete in between, a pass makes an occurrence no earlier than eligible, and less than a minute after unless the pass before left it and it was deleted since. |
| SchedulerRuns.PassesAdvance | backend/src/services/scheduler.service.ts:556-558 | The k-th pass runs between k minutes and k times six hours after the first. |
| SchedulerRuns.EventuallyFires | backend/src/services/scheduler.service.ts:561-673 | Every scheduled occurrence is there after each pass, once enough passes have run, whatever people click or delete in between. |
| SchedulerRuns.RunAtWakes | backend/src/services/scheduler.service.ts:571-673 | Running passes one after the other at their computed wakes, with clicks and edits in between, gives for every active Fixed template a run of the kind the lemmas above speak of. |
| SchedulerRuns.RunCopiesAtWakes | backend/src/services/task-recurrence.service.ts:321-377 | And for every active Fixed recurring task, with copies deleted too. |
| SchedulerRuns.RelativeFiresOnTime | backend/src/services/scheduler.service.ts:231-297 | An occurrence of a template recurring on completion is made no earlier than eligible, and less than a minute after if the last pass could know of it, else within six hours of the one before it being finished, whatever tasks people finish, reopen or delete between passes. |
| SchedulerRuns.RelativeCopiesWithinCeiling | backend/src/services/task-recurrence.service.ts:335-357 | A copy of a task recurring on completion is made no earlier than eligible, and less than six hours after it is eligible and the one before it finished; unless the latest copy was deleted since the last pass, by when both had already been so. |
| SchedulerRuns.RunRelativeAtWakes | backend/src/services/scheduler.service.ts:571-673 | Passes at their computed wakes, with people editing tasks in between, give for every such template a run of that kind. |
| SchedulerRuns.RunRelativeCopiesAtWakes | backend/src/services/task-recurrence.service.ts:321-377 | And for every such task, with copies deleted as well as finished and reopened. |
| SchedulerRuns.RunTwice | backend/src/services/scheduler.service.ts:561-673 | A second pass at the same moment makes nothing, and nothing is overdue. |
| SchedulerRuns.AlwaysInv | backend/src/services/scheduler.service.ts:188-215 | Under overlapping passes that may break off, click-throughs and deletions, at every moment each number is made as often as it is there or was deleted, less once if it was there from the start; nothing is made but what was due or clicked; and what was due at a finished pass, or is still meant to be made, is not lost. |
| SchedulerRuns.LogsAreTrue | backend/src/services/scheduler.service.ts:188-215 | In any interleaving, what counts as clicked, dropped, begun and ended is exactly what happened: clicks within the schedule, deletions, the latest moment a pass began and that of one that ran to its end. |
| SchedulerRuns.WhatMayHappen | backend/src/services/scheduler.service.ts:188-215 | Passes may begin, fire and break off, people may click and delete at any moment; only a row that is there can be deleted. |
| SchedulerRuns.ScheduleIndependence | backend/src/services/template.service.ts:665-698 | With no pass running, the occurrences are among the initial ones, those clicked and those due at the latest pass, and include all initial, clicked and due at the latest finished pass but for deleted ones, however the passes overlapped. |
| SchedulerRuns.UndisturbedSchedule | backend/src/services/template.service.ts:665-698 | If every pass ran to its end and nothing was deleted they are exactly the initial ones, those clicked and all due at the latest pass, each made at most once. |
| SchedulerLateness.WakeIsSoonIff | backend/src/services/scheduler.service.ts:481-559 | After a pass that left nothing overdue, the wake comes before a minute past a later moment exactly when the ceiling does, or something asks for a moment before then; so for every pending copy. |
| SchedulerLateness.RelativeCopiesAskForNothing | backend/src/services/scheduler.service.ts:538-558 | With nothing else waiting, tasks recurring on completion leave the wake at the ceiling. |
| SchedulerLateness.PassAndRest | backend/src/services/scheduler.service.ts:571-673 | Every pass leaves the database at rest with such a wake. |
| SchedulerLateness.ALateCopy | backend/src/services/scheduler.service.ts:434-559 | Two passes at computed wakes: a copy of a task finished any time before is made six hours less a millisecond after it is due, and reported late past the alert threshold. |
| SchedulerLateness.NeverAdvancesIff | backend/src/services/task-recurrence.service.ts:137-187 | For a series without copies on a Completed task with no completion time, no pass ever makes a copy exactly when the end condition allows no second occurrence or the interval is longer than the lead time whenever it is begun; months are longer exactly when every run of that many is, but for one step a day shorter. |
| SchedulerLateness.ReportLateIff | backend/src/services/scheduler.service.ts:342-449 | At its computed wake, whatever was edited, clicked, saved or deleted since, a pass finds something late by the bound or more, of what was set up by the last pass, exactly when a copy deleted since is to be made again that late; the bound is a minute, or six hours where tasks recur on completion. |
| SchedulerLateness.TemplatePartLate | backend/src/services/scheduler.service.ts:352-376 | Of templates nothing is ever late by a minute. |
| SchedulerLateness.SourcePartLate | backend/src/services/scheduler.service.ts:378-420 | Of one recurring task the report is late by its bound or more exactly when one of its deleted copies is. |
| SchedulerLateness.NothingDeletedNothingRemade | backend/src/services/scheduler.service.ts:378-420 | With no copy deleted none is made again, so every report stays below the bound. |
| SchedulerLateness.PassAtWake | backend/src/services/scheduler.service.ts:571-673 | So the lateness such a pass reports reaches the bound exactly for a copy deleted since the last; and it leaves the next wake computed likewise. |
| SchedulerLateness.RunAndReport | backend/src/services/scheduler.service.ts:571-673 | The same of every report of a run of passes at their wakes, with templates, rules, settings, tasks and goals edited and copies deleted in between. |
| SchedulerLateness.StampedTemplatesStand | backend/src/services/scheduler.service.ts:300-318 | Whatever people leave the templates as, if all that is new is stamped, some edits between two passes lead there. |
| SchedulerLateness.ADeletedCopy | backend/src/services/scheduler.service.ts:378-449 | A pass, a copy of a Fixed task deleted, the next pass at its wake: reported late by all the time since the copy first fell due, past the alert threshold. |
| SchedulerLateness.ADeletedLatestCopy | backend/src/services/scheduler.service.ts:378-449 | The same with a task recurring on completion: reported late by more than six hours. |
| Forest.Walker.Walk | backend/src/services/template.service.ts:109-123 | The recursive walk lists the specified preorder below a parent and ends even when parent links loop. |
| Forest.RootedIffAcyclic | backend/src/services/template.service.ts:109-126 | With every parent present, the roots reach every row exactly when the links have no loop. |
| Forest.ListedAllIffRooted | backend/src/services/template.service.ts:124-126 | The listing is as long as its input exactly when the roots reach every row. |
| Forest.TreeOrderHolds | backend/src/services/task-search.service.ts:364-388 | The listing holds each reached row once, in its parent's contiguous block one deeper, siblings in incoming order. |
| TemplateTree.IndexByKey | backend/src/services/template.service.ts:96-97 | The key index has as many entries as nodes exactly when keys are unique. |
| TemplateTree.OrderTree | backend/src/services/template.service.ts:96-126 | The first hierarchy refusal in order, or the nodes exactly once each with every parent before its children. |
| TemplateTree.BuildAdjacency | backend/src/services/template.service.ts:128-142 | The first refused dependency in order, or an adjacency holding just the first edge with each text. |
| TemplateTree.KeptAreTheFirst | backend/src/services/template.service.ts:128-142 | Of the edges that read the same with an arrow between their keys only the first reaches the cycle check, and every such first does. |
| TemplateTree.CycleFinder.HasCycle | backend/src/services/template.service.ts:143-154 | The colour walk answers at once on a cycle, and otherwise finishes exactly what it reached; ends on any graph. |
| TemplateTree.DependencyGraphHasCycle | backend/src/services/template.service.ts:143-159 | The colour walk over all start nodes finds a cycle exactly when there is one. |
| TemplateTree.ValidateAndOrderTree | backend/src/services/template.service.ts:92-162 | Refuses with exactly the specified reason, or returns a parent-first permutation. |
| TemplateTree.TreeVerdictIsReal | backend/src/services/template.service.ts:92-126 | Whatever a hierarchy is refused for is so: two equal keys, no root or two, a parent that is missing, a loop. |
| TemplateTree.DependencyVerdictIsReal | backend/src/services/template.service.ts:128-159 | Whatever dependencies are refused for is so: an end that is missing, a node blocking itself, a cycle. |
| TemplateTree.HierarchyIsExact | backend/src/services/template.service.ts:86-126 | The hierarchy checks pass exactly for unique keys, one root, present parents and no loop. |
| TemplateTree.AcceptsExactlyTheValid | backend/src/services/template.service.ts:86-162 | When no two edges share their text, the accepted payloads are exactly the valid ones. |
| TemplateTree.HiddenCycle | backend/src/services/template.service.ts:136-138 | Two different edges with the same text let a cycle through that the validator does not see. |
| TemplateTree.CycleCheckIsRightIff | backend/src/services/template.service.ts:128-159 | Over a set of keys the cycle check is right for every dependency list exactly when no two possible edges share their text. |
| TemplateTree.AmbiguousTreeAcceptsACycle | backend/src/services/template.service.ts:92-162 | For an accepted hierarchy whose keys are ambiguous, some dependency list with a cycle is accepted. |
| TemplateTree.AcceptanceIsRightIff | backend/src/services/template.service.ts:86-162 | Over an accepted hierarchy exactly the valid dependency lists are accepted, if and only if no two edges share their text. |
| TemplateTree.PlainKeysAreUnambiguous | backend/src/services/template.service.ts:136-136 | Keys without an arrow in them never share edge texts. |
| TemplateTree.AnAcceptedCycle | backend/src/services/template.service.ts:92-162 | A payload of four nodes and three dependencies, two of them a cycle, that the validator accepts. |
| TemplateReconcile.TemplateStore.DeleteMany | backend/src/services/template.service.ts:265-269 | Deleting rows takes exactly their descendants and every edge touching one. |
| TemplateReconcile.TemplateStore.UpsertAll | backend/src/services/template.service.ts:237-263 | Parents first, every payload node is written under its own id or a new one, the last under an id deciding its row, and no other row changes. |
| TemplateReconcile.RemovedAreAllDoomed | backend/src/services/template.service.ts:265-269 | The cascade takes just the removed rows: every kept row hangs off a kept row by then. |
| TemplateReconcile.KeysAssigned | backend/src/services/template.service.ts:237-263 | Every supplied id is kept and every other node gets a new id of its own; keys keep apart exactly when the supplied ids differ. |
| TemplateReconcile.TemplateStore.ReconcileTree | backend/src/services/template.service.ts:209-285 | Refused for exactly the first reason: an invalid payload, a node of another template, an inactive duty put on a node that did not carry it. Otherwise the template's edges become all of the payload's between different rows and its nodes the payload's, the last one under an id filling its row; with distinct ids tree and edges are exactly the payload's, each row with its node's content, duty and parent. Other templates are untouched. |
| TreeCopy.TaskDb.CreateAll | backend/src/services/template-instantiation.service.ts:146-193 | Rows are made in the order given, ids in turn; a parent counts only if its copy exists by then. |
| TreeCopy.OrderParentsFirst | backend/src/services/template-instantiation.service.ts:40-63 | A permutation of the nodes in which every node the roots reach follows its parent, for any parent links. |
| TreeCopy.TaskDb.GenerateOccurrence | backend/src/services/template-instantiation.service.ts:109-206 | Nothing is kept without a root; otherwise one new row per node, open, by the one who generates, for whoever was chosen for that node or nobody, with its content; one new task blocks another exactly where one node blocks the other; older rows unchanged, and a whole tree link for link with parents made first. |
| TreeCopy.OccurrenceHasTheTemplatesShape | backend/src/services/template-instantiation.service.ts:146-204 | One generated task is above another exactly when their nodes are. |
| TreeCopy.CollectSubtreeIds | backend/src/services/task.service.ts:724-739 | Exactly the subtree, root first, each once and after its parent, when the root lies on no loop. |
| TreeCopy.TaskDb.DuplicateTask | backend/src/services/task.service.ts:786-862 | One fresh copy per original in the chosen set, the root's beside the root, every other below its parent's copy made earlier, inner dependencies carried over exactly, older rows unchanged. |
| TreeCopy.DuplicateHasTheOriginalsShape | backend/src/services/task.service.ts:807-862 | One copy is above another exactly when the originals are, and no copy but the root's hangs off a row that was there before. |
| TemplateToTasks.SaveAndGenerate | backend/src/services/template.service.ts:209-285 | Saving a payload and generating it adds a loop of task dependencies exactly when the payload's dependencies, nodes naming one id taken as one, have a loop; with distinct ids the new tasks are the payload's nodes, link for link and dependency for dependency. |
| TemplateToTasks.SavedLoopsIff | backend/src/services/template.service.ts:271-283 | The stored edges loop exactly when the payload's do, nodes naming one id taken as one. |
| TemplateToTasks.DistinctIdsLoseNothing | backend/src/services/template.service.ts:271-283 | With distinct ids that is exactly when the payload's own dependencies loop. |
| TemplateToTasks.SharedRowClosesALoop | backend/src/services/template.service.ts:237-283 | A chain of dependencies from one node through a second to a third that shares the first one's id is stored as a loop. |
| TemplateToTasks.SharingIsAccepted | backend/src/services/template.service.ts:92-162 | A payload with two nodes under one id passes every check with dependencies that are loop-free and loop once stored. |
| TemplateToTasks.ASharedIdMakesALoop | backend/src/services/template.service.ts:209-285 | From an empty database: save a template, save that payload over it, generate; the tasks wait for each other. |
| TemplateToTasks.AnAcceptedPayloadMakesALoop | backend/src/services/template-instantiation.service.ts:197-204 | From an empty database, saving and generating the accepted example leaves tasks that wait for each other. |
| TemplateToTasks.ARunToALoop | backend/src/services/template-instantiation.service.ts:197-204 | The same as a run of the writers' protocol: one generation of the accepted example closes a loop. |
| ReviewWorkflow.TaskTable.CreateTask | backend/src/services/task.service.ts:146-180 | Refused for exactly the first failed check of assignee, assignment, dates and duty; any status may be asked for, Review and Completed included. |
| ReviewWorkflow.AcceptedWhenFine | backend/src/services/task.service.ts:270-407 | An ordinary edit passes exactly when it is not stale, its editor has full access, a finished or reviewed row keeps assignee and, in Review, status, nothing unfinished blocks Review or completion, reviewer, assignee, duty and group are permitted, and start is before due. |
| ReviewWorkflow.RefusalIsReal | backend/src/services/task.service.ts:270-407 | Whatever an edit is refused for is so. |
| ReviewWorkflow.EditLeaves | backend/src/services/task.service.ts:468-503 | What an accepted edit leaves, column by column, with the review record of editor, assignee and status on the way in. |
| ReviewWorkflow.CreatedWhenFine | backend/src/services/task.service.ts:146-162 | Creating a task passes exactly with an active assignee the creator may assign to, an active duty the assignee holds, if any, and start before due. |
| ReviewWorkflow.ExitsInWords | backend/src/services/task.service.ts:635-657 | The assignee, administrators and people above the assignee mark a review done; who sent it and who had it before recall it. |
| ReviewWorkflow.TaskTable.UpdateTask | backend/src/services/task.service.ts:260-528 | Goes through exactly when all those rules hold, and that one row changes as the patch says, with the review bookkeeping; refused for the first failed check. |
| ReviewWorkflow.CheckEdit | backend/src/services/task.service.ts:270-407 | The checks on the row read, in order: stale, access, locks, predecessors, people, duty, alert group, dates; none fails exactly when all those rules hold. |
| ReviewWorkflow.WriteRow | backend/src/services/task.service.ts:468-503 | What is written is worked out from the row read and set in the row as it is by then. |
| ReviewWorkflow.TaskTable.ExitReview | backend/src/services/task.service.ts:621-671 | Refused for exactly the stated reason; otherwise only prior assignee and status come back and the three review fields go. |
| ReviewWorkflow.RunRemembers | backend/src/services/task.service.ts:468-481 | Over every run whose edits were not overtaken in status, assignee and review fields, a row in Review holds a complete review record or was created there, and any other row holds none. |
| ReviewWorkflow.FrozenUnlessExit | backend/src/services/task.service.ts:308-320 | In Review every step not so overtaken, but an exit, leaves status, assignee and review fields as they are. |
| ReviewWorkflow.EntryRecords | backend/src/services/task.service.ts:322-352 | The only way in is an edit of an open row with finished predecessors and a permitted active person named, and it records assignee and status as they were. |
| ReviewWorkflow.CompletionNeedsPredecessors | backend/src/services/task.service.ts:118-143 | A step that completes a task is an accepted edit asking for it while every task that blocks it was Completed or Canceled. |
| ReviewWorkflow.BlockedIsNeverAccepted | backend/src/services/task.service.ts:118-143 | An edit to Completed or Review is never accepted while some task that blocks it is unfinished, whatever else it holds. |
| ReviewWorkflow.CompletedByAnEdit | backend/src/services/task.service.ts:118-143 | In every run a task that has become Completed was last completed by such an edit. |
| ReviewWorkflow.ReviewIsRemembered | backend/src/services/task.service.ts:308-320 | In every such run, a row in Review has been frozen since the last moment it was not, and remembers the assignee and non-terminal status of that moment. |
| ReviewWorkflow.ExitRestores | backend/src/services/task.service.ts:468-671 | However late its two readings are, an accepted exit puts back that assignee and status and clears the three fields, exactly when its second reading was in Review and its first one holds the same prior assignee and status as the row it writes (or no prior status, where that was Open). |
| ReviewWorkflow.ExitInOneStepRestores | backend/src/services/task.service.ts:621-671 | So an exit nothing overtook always restores. |
| ReviewWorkflow.ExitGoesThrough | backend/src/services/task.service.ts:630-671 | No blocker and no lock can hold a row in Review: an exit is turned down only for want of standing or for start not before due. |
| ReviewWorkflow.OutOfOrderIff | backend/src/services/template.service.ts:811-889 | Over every run of steps that read what they write, dates are out of order exactly when the last step that changed anything saved a template with its dates for the task out of order, or when they were so at the start and no step changed anything. |
| ReviewWorkflow.ReviewCannotEndIff | backend/src/services/task.service.ts:621-671 | So someone with standing is refused an exit exactly then. |
| ReviewWorkflow.ASaveThatHoldsAReview | backend/src/services/template.service.ts:811-889 | Sent to Review, then saved with start behind due: neither the reviewer nor the sender can end it. |
| ReviewWorkflow.CreatedInReviewLeavesUnassigned | backend/src/services/task.service.ts:660-668 | A row created in Review leaves it as Open with nobody assigned. |
| ReviewWorkflow.TerminalAssigneeStays | backend/src/services/task.service.ts:293-306 | While status stays Completed or Canceled no step that was not overtaken changes the assignee. |
| ReviewWorkflow.FinishedTaskKeepsAssignee | backend/src/services/task.service.ts:293-306 | Nor does any run of such steps. |
| ReviewWorkflow.ReopeningKeepsAssignee | backend/src/services/task.service.ts:293-306 | Even the step that reopens a finished row keeps its assignee, unless it is an overtaken exit. |
| ReviewWorkflow.OvertakenExit | backend/src/services/task.service.ts:635-668 | Whatever its second reading was, an accepted exit that finds the row finished reopens it, out of Review, for the prior assignee its first reading held. |
| ReviewWorkflow.OvertakenExitIsAccepted | backend/src/services/task.service.ts:621-671 | It is accepted whatever the row it writes has become, as long as its readings allow it. |
| ReviewWorkflow.AnExitThatLeavesTheRecord | backend/src/services/task.service.ts:468-481 | Recalled and sent to Review again around its second reading, an exit restores assignee and status and leaves the whole review record on the open row. |
| ReviewWorkflow.ReadProtectsReviewIff | backend/src/services/task.service.ts:308-320 | Every edit that passes its checks on an earlier reading leaves a row in Review as it is, exactly when that reading was in Review with the same assignee. |
| ReviewWorkflow.ReadProtectsFinishedIff | backend/src/services/task.service.ts:293-306 | Every such edit leaves a finished row that stays finished its assignee, exactly when the reading was in Review or finished, with the same assignee. |
| ReviewWorkflow.OvertakenEdit | backend/src/services/task.service.ts:484-503 | An edit that read an open row and writes after it entered Review takes it out, review record left behind. |
| NestedSearch.BuildNestedOrder | backend/src/services/task-search.service.ts:364-388 | The method computes the specified preorder, children only under listed parents. |
| NestedSearch.ListsEveryMatchIffNoLoop | backend/src/services/task-search.service.ts:344-388 | Every match is listed, and the total is the number of matches, exactly when no parent links among them form a loop. |
| NestedSearch.NestedOrderIsPreorder | backend/src/services/task-search.service.ts:364-388 | No row twice; at the top exactly those without a listed parent, every other in its parent's contiguous block one deeper; each layer in sort order. |
| NestedSearch.SortOrderIsKept | backend/src/services/task-search.service.ts:364-388 | Of two tasks shown under the same parent, or both at the top, the one sorted first is listed first. |
| NestedSearch.NestedPage | backend/src/services/task-search.service.ts:351-362 | A page is its slice of the whole nested list of the first 5000 matches, and total its length. |
| NestedSearch.PagesConcatenate | backend/src/services/task-search.service.ts:351-362 | The first pages put together are the start of the list, nothing skipped or repeated, and enough of them are all of it. |
| DateHistory.HistoryTable.FindRecent | backend/src/services/task-history.service.ts:65-76 | Finds the person's entry for that field inside the window with the latest time, the later row among equals. |
| DateHistory.HistoryTable.RecordCoalescedDateChange | backend/src/services/task-history.service.ts:57-86 | Merges into that entry, keeping its previous value, or adds a new one; every other field's log is untouched. |
| DateHistory.HistoryTable.SaveDate | backend/src/services/task.service.ts:504-524 | A save records a date only when it changed, merged or not as asked. |
| DateHistory.ChainKeptIff | backend/src/services/task-history.service.ts:57-86 | One recorded edit keeps the history an unbroken chain exactly when it does not merge behind the last entry. |
| DateHistory.AlwaysAChainIff | backend/src/services/task-history.service.ts:57-86 | Over any edits by anybody, the history is an unbroken chain after every edit exactly when no edit merges behind the last entry. |
| DateHistory.OnePersonsHistoryIsAChain | backend/src/services/task-history.service.ts:57-86 | For one person under a clock that never runs back: from the original date, entry by entry, to the current one. |
| DateHistory.EntriesAreBursts | backend/src/services/task-history.service.ts:54-86 | With merged edits only, the entries number one plus the gaps of 60 seconds or more between real changes. |
| DateHistory.EndsAreRight | backend/src/services/task-history.service.ts:57-86 | Whoever edits, the first row starts from the original date and the row changed last ends at the current one. |
| DateHistory.TwoPeopleBreakTheChain | backend/src/services/task-history.service.ts:65-86 | Two people editing by turns within a minute can leave entries that do not join up. |
| BusinessTime.ShiftDate | backend/src/utils/business-time.ts:111-117 | The edit of a local date computes the shifted calendar date. |
| BusinessTime.BusinessDateShows | backend/src/utils/business-time.ts:51-60 | The business date of an instant is the day the business clock shows then, with its year printed without an era. |
| BusinessTime.AddsExactlyThatManyDays | backend/src/utils/business-time.ts:111-117 | Exactly that many calendar days on, exactly for dates outside years 0 to 99. |
| BusinessTime.DaysAddUp | backend/src/utils/business-time.ts:111-117 | Steps add up and undo each other, as long as none stops in years 0 to 99. |
| BusinessTime.TwoStepsFindIt | backend/src/utils/business-time.ts:62-80 | The two-step conversion finds an instant showing the wall clock exactly when there is one, for any zone that changes its offset at most once within a day either side; of two it picks the stated one. |
| BusinessTime.SteadyZoneIsExact | backend/src/utils/business-time.ts:62-80 | With offsets no more than d apart, and steady within d of an instant showing the clock, that instant is found and is the only one. |
| BusinessTime.OffsetIsReadIff | backend/src/utils/business-time.ts:30-48 | The offset read off the formatted clock is the zone's exactly where the clock shows the year 100 or a later one. |
| BusinessTime.FromBusinessDateIsRight | backend/src/utils/business-time.ts:70-80 | For a typed or a printed date that reads as one, from February of the year 100 on, the result shows that date, and the time of day that many hours and minutes after midnight, exactly when some instant does. |
| BusinessTime.OffsetFromAnchorIsRight | backend/src/utils/business-time.ts:132-147 | The result lies that many calendar days from the anchor's business date, that many hours after midnight, exactly when some instant shows that. |
| BusinessTime.EndOfBusinessDayIsItsLastMoment | backend/src/utils/business-time.ts:119-130 | For every date of the years 0 to 9999: its end exists, and an instant is no later than it exactly when its business date is no later than the day, for all instants, if and only if the next day is in the years 1000 to 9999 and the clock shows the next midnight once, or jumps from it at or east of UTC, or falls back to it west of UTC. |
| BusinessTime.EndOfBusinessDayWithOneMidnight | backend/src/utils/business-time.ts:119-130 | Where the next midnight is on the clock once, it is right exactly when the next day is in the years 1000 to 9999. |
| BusinessTime.EndNineteenCenturiesLate | backend/src/utils/business-time.ts:111-130 | The end of a date in years 0 to 99 falls on a later day. |
| BusinessTime.NoEnd | backend/src/utils/business-time.ts:111-130 | From the year 100 on, a date whose next day's year has not four digits has no end. |
| BusinessTime.MidnightJumpEndsTheDayEarly | backend/src/utils/business-time.ts:119-130 | Where clocks west of UTC jump forward at midnight, the day is ended an hour early. |
| Csv.ReadsBackIff | backend/src/utils/csv.ts:10-27 | A document reads back cell for cell by the rules of section 2 of RFC 4180, null as empty text, exactly when it has a line and no row is without cells. |
| Csv.WrittenPlainly | backend/src/utils/csv.ts:10-27 | A document begins with the byte order mark; a cell is quoted exactly when it holds a quote, a comma or a line end. |

## Left out

- TemplateReconcile.TemplateStore.ReconcileTree: the empty parent key, which input validation excludes, is not told apart from none.
- BusinessTime.FromBusinessDateIsRight: speaks of zones with at most one change of offset within a day either side, offsets under a day and in whole seconds; before February of the year 100 only the misreading of the offset is stated.
- BusinessTime.EndOfBusinessDayIsItsLastMoment: speaks of the same zones.
- RelationshipProtocol.NeverALoopIff: access checks, history rows and merging of user accounts are not part of this model; a statement inside a transaction is one step.
- OrgChanges.BatchesKeepNoLoopIff: the several reads of one check are one; the Supervisor field of the user form, which checks no loops, is not part of this model.
- SchedulerRuns.RelativeCopiesWithinCeiling: the recurring task itself does not change during the run, only its copies do; SchedulerLateness.ReportLateIff lets it change.
- SchedulerLateness.ReportLateIff: speaks of passes at their computed wakes in which nothing throws.
- ReviewWorkflow.TaskTable.UpdateTask: a row deleted between the read and the write of an edit is not part of this model; the alert type is one of the columns no rule looks at.
- TreeCopy.TaskDb.GenerateOccurrence: the name prefix, sanitized description, start and due dates and alert columns of a made task are one opaque text taken over from its node.
- TreeCopy.TaskDb.DuplicateTask: reads and writes are one step here; what changes in between them is the subject of the relationship protocol.
- SchedulerPass.SchedulerDb.RunScheduler: reminder and Daily-run wake moments are parameters, a past unsent reminder that hides later ones included; health alerts, the timer and the queues are not part of this model.
- Calendar dates are numbers, not text: how a date or key is printed matters only where said (four-digit years, edge texts). Dates outside the range a JavaScript date can hold are not modelled.
- Ids, keys of users and duties are natural numbers instead of uuid strings; each call reads the clock once.
- Merging of user accounts, which moves assignees past both locks, and deleting users.
- The start and due dates of the copies a recurring task makes, and carrying assignees forward from earlier occurrences.
- Turning an existing task tree into a template, editing future occurrences beyond the row changes it makes, and template attachments.
- Notifications, e-mail, attachments, reminders and their removal: effects after the commit or beside it.
- Routes, input schemas, search filters, reports, workbooks, goals beyond the deadline pass, department and alert administration.
- The scoped organization tree and the row flags derived from an access level, which only repeat the level.
- The list of field changes built for an ordinary save: one entry for each field that differs.
