/** Classifies what a team member is doing on a date, for the schedule view. */
module StatusChecker {
  import opened Roles
  import opened Wrappers
  import opened Preachers
  import P = People
  import R = Rules
  import AssignmentChecker

  /** The status shown for a person on a date. */
  datatype PersonStatus = OnLeave | BlockedOut | Assigned | Preaching | Break | Teaching | Unassigned

  /** The label each status is displayed with. */
  function Label(s: PersonStatus): (l: string)
    ensures |l| > 0
  {
    match s
    case OnLeave => "ON-LEAVE"
    case BlockedOut => "BLOCKEDOUT"
    case Assigned => "ASSIGNED"
    case Preaching => "PREACHING"
    case Break => "BREAK"
    case Teaching => "TEACHING"
    case Unassigned => "UNASSIGNED"
  }

  /** Distinct statuses are displayed with distinct labels. */
  lemma LabelInjective(s: PersonStatus, t: PersonStatus)
    ensures Label(s) == Label(t) ==> s == t
  {
  }

  /** The status of `v` on `checkDate`, by the first condition that applies, in this order:
      on leave, blocked out, assigned, preaching, over the fatigue limit, teaching as a
      worship leader; otherwise unassigned. */
  function GetStatus(v: P.PersonView, checkDate: int): (s: PersonStatus)
    ensures v.onLeave <==> s == OnLeave
    ensures s == Unassigned <==>
      !v.onLeave && checkDate !in v.blockoutDates && checkDate !in v.assignedDates &&
      checkDate !in v.preachingDates &&
      !AssignmentChecker.HasExceededConsecutiveAssignments(
         v.assignedDates, v.preachingDates, checkDate, R.ConsecutiveAssignmentsLimit) &&
      !(WorshipLeader in v.roles && checkDate in v.teachingDates)
  {
    if v.onLeave then OnLeave
    else if checkDate in v.blockoutDates then BlockedOut
    else if checkDate in v.assignedDates then Assigned
    else if checkDate in v.preachingDates then Preaching
    else if AssignmentChecker.HasExceededConsecutiveAssignments(
              v.assignedDates, v.preachingDates, checkDate, R.ConsecutiveAssignmentsLimit) then Break
    else if WorshipLeader in v.roles && checkDate in v.teachingDates then Teaching
    else Unassigned
  }

  /** Each status is reported exactly when its own condition holds and no earlier one does:
      being on leave hides everything else, and an assigned date wins over a preaching date. */
  lemma StatusPriority(v: P.PersonView, checkDate: int)
    ensures GetStatus(v, checkDate) == BlockedOut <==> !v.onLeave && checkDate in v.blockoutDates
    ensures GetStatus(v, checkDate) == Assigned <==>
      !v.onLeave && checkDate !in v.blockoutDates && checkDate in v.assignedDates
    ensures GetStatus(v, checkDate) == Preaching <==>
      !v.onLeave && checkDate !in v.blockoutDates && checkDate !in v.assignedDates && checkDate in v.preachingDates
    ensures GetStatus(v, checkDate) == Break <==>
      !v.onLeave && checkDate !in v.blockoutDates && checkDate !in v.assignedDates &&
      checkDate !in v.preachingDates &&
      AssignmentChecker.HasExceededConsecutiveAssignments(
        v.assignedDates, v.preachingDates, checkDate, R.ConsecutiveAssignmentsLimit)
    ensures GetStatus(v, checkDate) == Teaching <==>
      !v.onLeave && checkDate !in v.blockoutDates && checkDate !in v.assignedDates &&
      checkDate !in v.preachingDates &&
      !AssignmentChecker.HasExceededConsecutiveAssignments(
        v.assignedDates, v.preachingDates, checkDate, R.ConsecutiveAssignmentsLimit) &&
      WorshipLeader in v.roles && checkDate in v.teachingDates
  {
  }

  /** The status agrees with the builder's rules. A person shown unassigned or teaching passes
      the availability and fatigue rules for every role; on leave, blocked out or preaching, the
      person fails an availability rule for every role; on a break, the person fails the fatigue
      rule; teaching, the person fails the teaching rule for the worship-leader role. */
  lemma StatusAgreesWithRules(v: P.PersonView, checkDate: int, role: Role, preacher: Option<Preacher>)
    ensures var s := GetStatus(v, checkDate);
      (s == Unassigned || s == Teaching) ==>
        R.Holds(R.OnLeave, v, role, checkDate, preacher) &&
        R.Holds(R.BlockoutDate, v, role, checkDate, preacher) &&
        R.Holds(R.PreachingDate, v, role, checkDate, preacher) &&
        R.Holds(R.ConsecutiveAssignmentLimit, v, role, checkDate, preacher)
    ensures var s := GetStatus(v, checkDate);
      (s == OnLeave || s == BlockedOut || s == Preaching) ==>
        !(R.Holds(R.OnLeave, v, role, checkDate, preacher) &&
          R.Holds(R.BlockoutDate, v, role, checkDate, preacher) &&
          R.Holds(R.PreachingDate, v, role, checkDate, preacher))
    ensures GetStatus(v, checkDate) == Break ==> !R.Holds(R.ConsecutiveAssignmentLimit, v, role, checkDate, preacher)
    ensures GetStatus(v, checkDate) == Teaching ==>
      !R.Holds(R.WorshipLeaderTeaching, v, WorshipLeader, checkDate, preacher)
  {
  }

  /** A person's own assignment on the date shows as assigned unless they are on leave or
      blocked out, whatever else is recorded for that date. */
  lemma AssignedDateShows(v: P.PersonView, checkDate: int, role: Role)
    requires !v.onLeave && checkDate !in v.blockoutDates && role in v.roleAssignedDates
    ensures GetStatus(P.Assigned(v, checkDate, role), checkDate) == Assigned
  {
    assert P.Assigned(v, checkDate, role).assignedDates[|v.assignedDates|] == checkDate;
  }
}
