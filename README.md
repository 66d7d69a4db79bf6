# Team scheduler: a verified model of the assignment core

This project models the part of the church-team scheduler that decides who serves where. Each
service date becomes an **event** with one slot per **role** (worship leader, emcee, acoustic
guitar, keys, drums, bass, audio, live stream, lyrics, Sunday-school teacher, backup, electric
guitar). The **schedule builder** fills the roles of each date in priority order. For each role it
asks the **eligibility checker**, which runs an ordered list of **rules** over the person, the role,
the date and the preacher of the day. Rules cover capability, leave, blockout dates, preaching
dates, role cooldowns, fatigue windows, worship-leader teaching and preaching conflicts, and two
named exceptions. The worship leader is drawn from a round-robin **rotation**. Any other role goes
to some eligible member. A member is used at most once per date, and every assignment is recorded
in the member's history, which later rules read.

Also modelled:
- the **status classifier**, which labels a member's day (on leave, blocked out, assigned,
  preaching, on a break, teaching, unassigned);
- the **date-range helpers** of the schedule screen (span of the preaching schedule, containment
  checks, clamping of a requested window).

Dates are day numbers and a week is 7 days. Objects whose fields the source updates in place are
classes: `Person` (its assignment history), `Event` (its slots), `WorshipLeaderSelector` (its
cursor), `Schedule` (its event list). `Person.View()` snapshots a person into the `PersonView`
value, so the rules and the status classifier are plain functions of values.
The builder states its results against ghost outputs. `start` holds the team's snapshots on
entry, `picks` each date's decisions (`DatePick`), and `made` the new events.

Modules and files:
- `Roles` (roles.dfy): roles, priority order, schedule order.
- `People` (person.dfy): `Person` and its history invariant `HistoryConsistent`.
- `Preachers` (preacher.dfy): the preacher record.
- `AssignmentChecker` (assignment_checker.dfy): the rolling fatigue window.
- `Rules` (rules.dfy): the eligibility rules.
- `Eligibility` (eligibility_checker.dfy): the rule evaluator.
- `Events` (event.dfy): `Event` and its queries.
- `Rotation` (worship_leader_selector.dfy): the worship-leader rotation.
- `Scheduling` (schedule.dfy): the builder.
- `StatusChecker` (person_status_checker.dfy): the status classifier.
- `DateRanges` (ui_schedule_handler.dfy): the date-range helpers.
- `Wrappers` (wrappers.dfy): `Option`.

Main results:
- Each date's roles are filled greedily in priority order. A slot is filled iff some team member
  still free on that date passes every rule at that moment. The member chosen is one of them.
- The worship leader is the rotation's pick whenever the rotation has one among the eligible
  members.
- With unique team names, no name fills two slots of one event.
- Each member given a role gains exactly that assignment in their history. Every other member's
  history is unchanged. Histories stay consistent, only grow, and respected cooldowns stay
  respected.
- The rotation picks the first eligible name in circular order from its cursor. When everyone is
  eligible, it walks the rotation in order.
- The status classifier reports each status exactly when its condition holds and no earlier one
  does, and agrees with the rules.

## Model

| member | source | states |
|---|---|---|
| Roles.ScheduleOrder | schedule_builder/models/role.py:37-60 | the display order lists the twelve roles once each, emcee first, then worship leader, Sunday-school teacher last |
| Roles.PriorityOrderIsEnumeration | schedule_builder/models/role.py:24-35 | the declaration (priority) order lists every role exactly once, worship leader first and electric guitar last |
| Roles.ScheduleOrderIsPermutation | schedule_builder/models/role.py:38-60 | the display order is a permutation of all roles with SchedulePos its inverse, and differs from the priority order |
| Roles.ValueInjective | schedule_builder/models/role.py:24-35 | distinct roles carry distinct string values |
| Roles.ValueMembership | schedule_builder/models/event.py:126 | a role's value is among the values of a role list iff the role is in the list |
| People.Person.constructor | schedule_builder/models/person.py:16-35 | a new person has an empty history: both per-role maps are keyed by exactly the capable roles, with no last date and an empty list, and the history invariant holds |
| People.Person.AssignEvent | schedule_builder/models/person.py:37-47 | recording appends the date to the overall and the per-role history, makes it the role's last date, changes nothing else, and keeps the history invariant |
| People.AssignedKeepsHistoryConsistent | schedule_builder/models/person.py:37-47 | recording an assignment to a capable role keeps the maps keyed by the roles, the last date equal to the last per-role entry, and the overall count equal to the per-role total |
| People.NextPreachingDate | schedule_builder/models/person.py:49-63 | None iff every preaching date is before the reference; otherwise a preaching date on or after the reference and no later than any other such date |
| People.FirstNamed | schedule_builder/models/event.py:99 | None iff no member has the name; otherwise a member with the name, with no earlier member of that name |
| AssignmentChecker.CountAppend | schedule_builder/util/assignment_checker.py:24-27 | the window count of a concatenation is the sum of the counts |
| AssignmentChecker.HasExceededConsecutiveAssignments | schedule_builder/util/assignment_checker.py:5-28 | reached iff the assigned dates plus the preaching dates in the closed window of limit weeks ending on the reference number at least the limit, each occurrence counted; a limit of zero or less is always reached |
| AssignmentChecker.WindowBoundaries | schedule_builder/util/assignment_checker.py:25-27 | the window is closed at both ends: one more date counts iff it lies between reference minus limit weeks and the reference |
| AssignmentChecker.OutsideWindowIgnored | schedule_builder/util/assignment_checker.py:24-28 | dates after the reference or before the window start, added to either list, never change the result |
| AssignmentChecker.NoneInWindow | schedule_builder/util/assignment_checker.py:27 | a list with no entry in the window contributes nothing |
| AssignmentChecker.ExceededMonotone | schedule_builder/util/assignment_checker.py:24-28 | adding dates to either list never turns an exceeded result back |
| AssignmentChecker.EmptyNeverExceeded | schedule_builder/util/assignment_checker.py:28 | with no dates and a positive limit the limit is not reached |
| Rules.NotAssignedTooRecently | tests/test_rules.py:168-231 | on a consistent history, passes iff the role has no cooldown, has no dates, or its last date is more than the cooldown before the date |
| Rules.AssignedTooManyTimesRecently | tests/test_rules.py:234-280 | true iff the assigned plus preaching dates in the three weeks ending on the date, both ends included, number at least three |
| Rules.RoleAssignedTooManyTimesRecently | tests/test_rules.py:283-317 | true iff the role's own dates in the window of limit weeks ending on the date reach the limit; a role never assigned is never over |
| Rules.UnavailableDueToPreaching | tests/test_rules.py:361-411 | true iff some preaching date lies between the date and a week after it, both ends included |
| Rules.Holds | schedule_builder/eligibility/rules.py:11-63 | the two worship-leader rules pass for every other role; the Lulu rule passes for everyone but Lulu as emcee; the Gee rule passes for everyone but Gee as worship leader |
| Rules.WorshipLeaderRulesScope | schedule_builder/eligibility/rules.py:35-45 | the two worship-leader rules pass for every other role; for the worship leader the teaching rule fails exactly on a teaching date |
| Rules.PreachingConflictWindow | schedule_builder/eligibility/rules.py:41-45 | a worship leader passes the preaching-conflict rule iff no preaching date lies in [date, date + 7] |
| Rules.PreachingConflictExamples | tests/test_rules.py:361-411 | preaching the same day or a week later bars a worship leader; a week earlier or two weeks later does not |
| Rules.RoleTimeWindowExamples | tests/test_rules.py:168-231 | worship leader and Sunday-school teacher are barred 28 days after their last date and not 35; emcee barred at 14, not 21; never-assigned roles pass |
| Rules.ConsecutiveLimitExamples | tests/test_rules.py:234-280 | two assignments in the last two weeks leave a person eligible, three in the last three weeks do not |
| Rules.NamedRulesScope | schedule_builder/eligibility/rules.py:47-63 | the Lulu rule binds only Lulu as emcee (eligible iff Edmund preaches); the Gee rule binds only Gee as worship leader (eligible unless Kris preaches) |
| Rules.SpacedAllPairs | schedule_builder/eligibility/rules.py:27-29 | when consecutive role dates are more than the cooldown apart, every pair is |
| Rules.AssignmentKeepsCooldown | schedule_builder/eligibility/rules.py:27-29 | an assignment the role-time-window rule allowed keeps every role history spaced by more than its cooldown |
| Rules.SpacedAppend | schedule_builder/eligibility/rules.py:27-29 | a date more than the gap after the last entry keeps a spaced history spaced |
| Rules.AssignmentKeepsFatigueCap | schedule_builder/eligibility/rules.py:31-33 | an assignment the fatigue rule allowed leaves at most three dates in the three-week window ending on the date |
| Eligibility.AllRulesPassMembership | schedule_builder/eligibility/eligibility_checker.py:40-49 | a person passes iff every rule in the list holds, and fails iff some rule in the list fails |
| Eligibility.AllRulesPassAppend | schedule_builder/eligibility/eligibility_checker.py:40-49 | the verdict of a rule list is the conjunction of its parts and does not depend on the order of the parts |
| Eligibility.EligibilityChecker.constructor | schedule_builder/eligibility/eligibility_checker.py:18-19 | the checker keeps the given rule list |
| Eligibility.EligibilityChecker.IsEligible | schedule_builder/eligibility/eligibility_checker.py:21-49 | eligible iff every rule passes; on failure the rules looked at are a prefix ending at the first failing rule; on success all rules are looked at |
| Events.Event.constructor | schedule_builder/models/event.py:18-35 | a new event has every role's slot empty and keeps its date, team and preachers |
| Events.Event.AssignRole | schedule_builder/models/event.py:37-55 | a filled slot is refused with nothing changed; an empty slot gets the person's name and the assignment is recorded in the person's history |
| Events.Event.AssignedRoles | schedule_builder/models/event.py:57-66 | exactly the filled roles, strictly in display order |
| Events.Event.UnassignedRoles | schedule_builder/models/event.py:68-75 | exactly the empty roles, strictly in display order |
| Events.Event.RolesPartition | schedule_builder/models/event.py:57-75 | filled and empty roles are disjoint and number twelve together |
| Events.Event.UnassignedNames | schedule_builder/models/event.py:77-87 | a name is listed iff a team member has it and no slot holds it, at most one entry per member; the order and per-member contribution are UnheldNamesAppend's |
| Events.UnheldNames | schedule_builder/models/event.py:84-87 | a name is listed iff some member has it and no slot holds it |
| Events.UnheldNamesAppend | schedule_builder/models/event.py:84-87 | the names of two lists in a row are the first list's names followed by the second's, and one member contributes its name exactly when no slot holds it: team order, one entry per member |
| Events.Event.PersonByName | schedule_builder/models/event.py:89-99 | no name gives None; otherwise the first team member with the name |
| Events.Event.AssignedPreacher | schedule_builder/models/event.py:101-111 | None iff no preacher preaches on the date; otherwise a listed preacher who does |
| Events.PreacherOn | schedule_builder/models/event.py:108-111 | None iff no preacher has the date; otherwise the first preacher that has it |
| Events.Event.IsAssignableIfNeeded | schedule_builder/models/event.py:113-129 | true iff not on leave, capable of the role, and the date is neither a blockout nor a preaching date; the test by role value agrees with role membership |
| Events.Event.AssignableIfNeededIsAvailability | schedule_builder/models/event.py:113-129 | the fallback check holds iff the capability, leave, blockout and preaching-date rules all pass |
| Rotation.Wrap | schedule_builder/helpers/worship_leader_selector.py:53 | the next cursor position is (position + 1) mod the rotation length |
| Rotation.Scan | schedule_builder/helpers/worship_leader_selector.py:42-59 | a found position is in range and its name belongs to an eligible person |
| Rotation.ScanIsFirstCircularMatch | schedule_builder/helpers/worship_leader_selector.py:42-59 | None iff none of the visited positions is eligible; otherwise the first eligible one in circular order from the start |
| Rotation.Select | schedule_builder/helpers/worship_leader_selector.py:38-62 | the cursor stays in range and is kept when nobody is picked; a pick is an eligible person whose name is in the rotation |
| Rotation.SelectIsFirstCircularMatch | schedule_builder/helpers/worship_leader_selector.py:38-62 | nothing is picked for an empty list or rotation, or when no rotation name is eligible; otherwise the first eligible name k steps from the cursor is picked and the cursor moves just past it |
| Rotation.Rounds | tests/test_worship_leader_selector.py:26-37 | k successive selections give k picks |
| Rotation.RotationCyclesInOrder | tests/test_worship_leader_selector.py:26-37 | when every rotation name is eligible, the j-th successive pick is the person named j places after the cursor, wrapping around |
| Rotation.WorshipLeaderSelector.constructor | schedule_builder/helpers/worship_leader_selector.py:14-23 | the selector keeps the rotation and the cursor |
| Rotation.WorshipLeaderSelector.GetNext | schedule_builder/helpers/worship_leader_selector.py:25-62 | the pick and the new cursor are those of Select from the old cursor |
| Scheduling.Schedule.constructor | schedule_builder/builders/schedule.py:43-81 | no events, a fresh rotation with the cursor at 0, and the eleven rules in the builder's order |
| Scheduling.ScheduleRulesInclude | schedule_builder/builders/schedule.py:67-81 | passing the builder's rules implies capability, not on leave, not blocked out, not preaching, the cooldown and the fatigue rule |
| Scheduling.EligibleAmong | schedule_builder/builders/schedule.py:150-154 | exactly the pool members that pass every rule |
| Scheduling.EligibleAmongNext | schedule_builder/builders/schedule.py:150-154 | looking at one more pool member extends the eligible list by that member exactly when it passes every rule |
| Scheduling.EligibleIn | schedule_builder/builders/schedule.py:150-154 | exactly the pool members whose snapshot passes every rule |
| Scheduling.EligibleAmongViews | schedule_builder/builders/schedule.py:150-154 | when the snapshots are the members' current states, filtering by snapshot is filtering the pool |
| Scheduling.Schedule.FilterEligible | schedule_builder/builders/schedule.py:150-154 | the loop returns the members of the pool that pass every rule, in pool order |
| Scheduling.Schedule.GetEligiblePerson | schedule_builder/builders/schedule.py:126-173 | None iff nobody in the pool passes every rule; otherwise an eligible pool member; for the worship leader the rotation's pick when it has one, with the cursor moved as Select says; the cursor moves only for the worship leader |
| Scheduling.RemoveFirst | schedule_builder/builders/schedule.py:119 | the pool loses one entry and gains none; with unique names the removed member is gone |
| Scheduling.AssignInvariants | schedule_builder/builders/schedule.py:113 | an assignment the rules allowed is to a capable role and keeps the history invariant and the cooldowns |
| Scheduling.StepExtend | schedule_builder/builders/schedule.py:113 | giving the next role to a member adds exactly that member's assignment to the date's snapshots |
| Scheduling.StepKeepsFree | schedule_builder/builders/schedule.py:105-119 | a member given none of the roles decided so far keeps their snapshot |
| Scheduling.StepAssignsOnce | schedule_builder/builders/schedule.py:105-119 | a member given exactly one role of the date ends with their snapshot plus that one assignment |
| Scheduling.PoolAfterAssign | schedule_builder/builders/schedule.py:119 | taking the chosen member out of the pool keeps the pool inside the team and holding everyone still free |
| Scheduling.DistinctAfterAssign | schedule_builder/builders/schedule.py:119 | with unique team names, the pool keeps unique names, nobody with a role is in it and no name has two roles |
| Scheduling.Schedule.ProgressAssign | schedule_builder/builders/schedule.py:113 | an assignment the rules allow keeps every member's snapshot consistent and grown |
| Scheduling.Schedule.DecidedSkip | schedule_builder/builders/schedule.py:105-111 | a role left empty because no free member passes every rule keeps the earlier decisions and decides its own position |
| Scheduling.Schedule.DecidedAssign | schedule_builder/builders/schedule.py:105-113 | giving the next role to a member whose snapshot passes every rule (the rotation's pick, for the worship leader, when it has one) keeps the earlier decisions and decides this one |
| Scheduling.Schedule.FillingSkip | schedule_builder/builders/schedule.py:105-111 | leaving the next role empty because nobody in the pool is eligible keeps the per-date filling invariant |
| Scheduling.Schedule.FillingAssign | schedule_builder/builders/schedule.py:105-119 | giving the next role to a free eligible member keeps every filled slot backed by an eligible snapshot and, with unique names, no name twice |
| Scheduling.Schedule.FillRole | schedule_builder/builders/schedule.py:105-119 | a member is chosen iff some pool member's current snapshot passes every rule; none chosen leaves pool, slots and histories unchanged; a chosen member is an eligible pool member who gets the slot, leaves the pool once and gains exactly this assignment; for the worship leader the rotation's pick when it has one, with the cursor moved as Select says; other roles leave the cursor alone |
| Scheduling.Schedule.GiveRole | schedule_builder/builders/schedule.py:111-119 | the slot gets the member's name, the member leaves the pool once, gains exactly this assignment, and every member stays consistent and grown |
| Scheduling.Schedule.RoleRotation | schedule_builder/builders/schedule.py:162-168 | the worship leader's role is decided first, on an empty slot, and the rotation's pick for the date is its selection among the pool's eligible members |
| Scheduling.Schedule.FillingNext | schedule_builder/builders/schedule.py:105-119 | one step of the role loop, as FillRole reports it, keeps the filling invariant and moves the snapshots on by exactly the assignment made |
| Scheduling.Schedule.DecideRole | schedule_builder/builders/schedule.py:105-119 | one pass of the role loop keeps the loop invariant one position on: decisions so far, current snapshots, and the cursor moved once the worship leader is decided |
| Scheduling.Schedule.FillingStart | schedule_builder/builders/schedule.py:98-102 | before any role is decided the whole team is free and the filling invariant holds |
| Scheduling.Schedule.FillEvent | schedule_builder/builders/schedule.py:102-119 | all twelve roles are decided in priority order from the snapshots at the start of the date, the snapshots end as those decisions leave them, and the cursor ends at the rotation's next index |
| Scheduling.Schedule.Commit | schedule_builder/builders/schedule.py:113 | the empty slot gets the member's name, the member's snapshot becomes the old one plus this assignment, and every other team member's snapshot is unchanged |
| Scheduling.Schedule.DateRecordsAssignments | schedule_builder/builders/schedule.py:113-124 | with distinct names, each member given a role could take it and gains exactly that assignment, and every other member is unchanged |
| Scheduling.Schedule.DateRecordsRole | schedule_builder/builders/schedule.py:113 | the member given a role is capable of it and gains exactly that assignment |
| Scheduling.Schedule.ScheduleDate | schedule_builder/builders/schedule.py:95-122 | a new event for the date with every role decided greedily in priority order from the team's snapshots at the start of the date: each filled slot names a member who passed every rule at that moment, each empty slot had no eligible free member, the worship leader is the rotation's pick whenever it has one; with unique names no name twice; afterwards the snapshots are the start ones plus exactly the date's assignments and the cursor is the rotation's next index |
| Scheduling.Schedule.FilledDate | schedule_builder/builders/schedule.py:102-122 | once all roles are decided the event is the builder's event for the date, with no name twice when names are unique |
| Scheduling.Schedule.ChainedExtend | schedule_builder/builders/schedule.py:95-122 | a date started where the earlier dates left off extends the chain, and the final snapshots and cursor become that date's |
| Scheduling.Schedule.ScheduleNext | schedule_builder/builders/schedule.py:95-122 | scheduling the next date extends the dates done by one scheduled event |
| Scheduling.Schedule.DatesExtend | schedule_builder/builders/schedule.py:95-122 | a date scheduled from where the earlier dates left off extends the dates done |
| Scheduling.Schedule.ScheduledExtend | schedule_builder/builders/schedule.py:95-122 | an event scheduled on the next date extends the list of scheduled events |
| Scheduling.Schedule.ScheduleDates | schedule_builder/builders/schedule.py:95-122 | one new event per event date, in order, each scheduled as ScheduleDate says from the snapshots and cursor the previous dates left; the team's histories and the cursor end where the last date left them |
| Scheduling.Schedule.AppendDates | schedule_builder/builders/schedule.py:95-124 | the schedule's events gain exactly the events scheduled for the dates, in order |
| Scheduling.Schedule.Build | schedule_builder/builders/schedule.py:83-124 | an empty team schedules nothing and returns empty lists; otherwise the events gain exactly one new event per date, each scheduled greedily as ScheduleDate says, date after date from the team as it was on entry, and the team is returned; the final histories and rotation cursor are those the dates' decisions leave, every history stays consistent, only grows and keeps respected cooldowns |
| StatusChecker.GetStatus | schedule_builder/helpers/person_status_checker.py:19-54 | on leave iff the status is on leave; unassigned iff none of the six conditions holds |
| StatusChecker.StatusPriority | schedule_builder/helpers/person_status_checker.py:31-52 | blocked out, assigned, preaching, break and teaching are each reported exactly when their own condition holds and none of the earlier ones does, in that order, teaching only for a worship leader |
| StatusChecker.StatusAgreesWithRules | schedule_builder/helpers/person_status_checker.py:31-52 | unassigned or teaching passes the availability and fatigue rules; on leave, blocked out or preaching fails an availability rule; a break fails the fatigue rule; teaching fails the worship-leader teaching rule |
| StatusChecker.AssignedDateShows | schedule_builder/helpers/person_status_checker.py:37-38 | after an assignment on the date, the status that day is assigned unless on leave or blocked out |
| StatusChecker.LabelInjective | schedule_builder/models/person_status.py:9-15 | distinct statuses have distinct labels |
| DateRanges.AllPreachingDates | ui/ui_schedule_handler.py:49-53 | a date is listed iff some preacher has it |
| DateRanges.MinOf | ui/ui_schedule_handler.py:60 | an element of the list no greater than any element |
| DateRanges.MaxOf | ui/ui_schedule_handler.py:61 | an element of the list no smaller than any element |
| DateRanges.CalculatePreachingDateRange | ui/ui_schedule_handler.py:39-63 | no preachers and no dates are errors; otherwise both bounds are preaching dates, earliest ≤ latest, and every preaching date lies between them |
| DateRanges.RangeExistsIffSomeDate | ui/ui_schedule_handler.py:46-56 | the range exists iff some preacher has a date |
| DateRanges.IsWithinDateRange | ui/ui_schedule_handler.py:65-75 | only a non-empty range holds a date; the containment test (both ends included) is the one IsPreachingScheduleWithinDateRange, PreachingScheduleWithinIffAllDates and AdjustedWindowWithinRange state their results with |
| DateRanges.IsPreachingScheduleWithinDateRange | ui/ui_schedule_handler.py:77-90 | true iff the range is not empty and every date within it lies in [start, end] |
| DateRanges.PreachingScheduleWithinIffAllDates | ui/ui_schedule_handler.py:65-90 | every preaching date is within the range; the schedule lies in [start, end] iff every preaching date does |
| DateRanges.AdjustDatesWithinRange | ui/ui_schedule_handler.py:92-116 | the start never moves down and ends at or after the earliest date; the end never moves up and ends at or before the latest date; each is unchanged or set to the bound; the flag is set iff something moved |
| DateRanges.AdjustIdempotent | ui/ui_schedule_handler.py:106-116 | clamping a clamped window changes nothing and clears the flag |
| DateRanges.AdjustedWindowWithinRange | ui/ui_schedule_handler.py:92-116 | every date of a clamped window is within the range; a window covering the schedule clamps to exactly the range |

## Left out

- I/O, the GUI (ui/application.py, ui/ui_manager.py, ui/ui_event_handler.py), file and HTML export, logging and `__str__` are not part of this model.
- The date generator is not part of this model. `build_schedule` in ui/ui_schedule_handler.py only wires the Sunday dates and a deep copy of the team into `Schedule.build`, so it is not modelled separately.
- `random.choice` is an arbitrary choice (`:|`) from the eligible list. The model proves only that the choice is eligible, not how choices are distributed.
- People.Person.AssignEvent requires the role to be one of the person's roles. In the source, an unknown role raises a KeyError after two of the three history updates. The builder never reaches that path, because the capability rule runs first.
- Events.Event.AssignRole requires, for an empty slot, that the role is one of the person's and that the person's history is consistent. In the source, an incapable person still gets the slot written, and the history update then raises a KeyError part-way through. The builder never reaches that path, because the capability rule runs first. The "not a valid role" branch is left out, because the role type admits only the twelve roles.
- A refused slot is returned as an `AlreadyAssigned` outcome with nothing changed, where the source raises ValueError.
- Rotation.WorshipLeaderSelector.constructor requires the cursor to lie in the rotation. The source accepts any index, and an out-of-range index fails on the first lookup. The builder always starts at 0.
- The source turns a `None` team, preacher list or rotation into an empty list. The model takes lists directly.
- `list.remove` removes the first element equal to the chosen person. The model removes the first reference to that person. The two coincide when team members are distinct, and no-name-twice is proved under unique names.
- Scheduling.Schedule.ScheduleDates collects the new events and appends them to the schedule's list once, after the last date. The source appends after each date. Nothing reads the list in between, so the final state is the same.
- AssignmentChecker.HasExceededConsecutiveAssignments follows the code for a limit of zero or less and reports the limit reached. tests/test_assignment_checker.py:83-101 expect a ValueError for such a limit and for a missing reference date, which the code never raises. The model has no missing dates.
- The overall fatigue limit comes from a configuration module that is not part of this model. It is the constant 3, the value the rule tests use.
- The person methods that three rules call are not part of person.py: `was_not_assigned_too_recently_to_role`, `assigned_too_many_times_recently` and `is_unavailable_due_to_preaching`. Rules.NotAssignedTooRecently, Rules.AssignedTooManyTimesRecently and Rules.UnavailableDueToPreaching define them as tests/test_rules.py:168-280 and 361-411 pin them. The cooldowns are 28 days for worship leader and Sunday-school teacher and 14 for emcee. The preaching buffer is 7 days.
- `ConsecutiveRoleAssignmentLimitRule` appears in the builder's rule list but not in rules.py. Rules.RoleAssignedTooManyTimesRecently models it as the fatigue window over the role's own history, with both ends included, as tests/test_rules.py:283-317 pins it.
- The Kris/acoustic, Jeff/Mariel, Mark/drums and Aubrey/live rules appear only in tests/test_rules.py, not in rules.py, so they are not part of this model.
- ui/application.py repeats the date-range helpers; they are modelled once, from ui/ui_schedule_handler.py.
