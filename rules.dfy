/** The eligibility rules: small predicates over (person, role, event date, preacher of the day).
    A rule that does not concern the given person or role answers true. */
module Rules {
  import opened Roles
  import opened Wrappers
  import opened Preachers
  import opened People
  import AssignmentChecker

  type PositiveInt = x: int | x > 0 witness 1

  datatype Rule =
    | RoleCapability
    | OnLeave
    | BlockoutDate
    | PreachingDate
    | RoleTimeWindow
    | ConsecutiveAssignmentLimit
    | ConsecutiveRoleAssignmentLimit(assignmentLimit: PositiveInt)
    | WorshipLeaderTeaching
    | WorshipLeaderPreachingConflict
    | LuluEmcee
    | GeeWorshipLeader

  /** The configured overall fatigue limit (in weeks and in assignments). */
  const ConsecutiveAssignmentsLimit: PositiveInt := 3

  /** How close (in days) a coming preaching date may be before it bars worship leading. */
  const PreachingBufferDays: int := 7

  /** The cooldown of each role, in days; None for roles without one. */
  function CooldownDays(role: Role): (w: Option<int>)
    ensures w.Some? ==> w.value > 0
  {
    match role
    case WorshipLeader => Some(4 * AssignmentChecker.DaysPerWeek)
    case SundaySchoolTeacher => Some(4 * AssignmentChecker.DaysPerWeek)
    case Emcee => Some(2 * AssignmentChecker.DaysPerWeek)
    case _ => None
  }

  /** The role's last assigned date, None when it was never assigned. */
  function LastAssigned(v: PersonView, role: Role): Option<int> {
    if role in v.lastAssignedDates then v.lastAssignedDates[role] else None
  }

  /** The role's own history, empty when it was never assigned. */
  function RoleHistory(v: PersonView, role: Role): seq<int> {
    if role in v.roleAssignedDates then v.roleAssignedDates[role] else []
  }

  /** Cooldown check: the role has no cooldown, was never assigned, or was last assigned more
      than its cooldown before `date`. On a consistent history the cached last date is the
      role history's last entry, so the check reads the history itself. */
  function NotAssignedTooRecently(v: PersonView, role: Role, date: int): (r: bool)
    ensures HistoryConsistent(v) && role in v.roles ==>
      (r <==> CooldownDays(role).None? || v.roleAssignedDates[role] == [] ||
              date - v.roleAssignedDates[role][|v.roleAssignedDates[role]| - 1] > CooldownDays(role).value)
  {
    CooldownDays(role).None? || LastAssigned(v, role).None? ||
    date - LastAssigned(v, role).value > CooldownDays(role).value
  }

  /** The overall fatigue check at the configured limit: three or more assigned or preaching
      dates in the three weeks ending on `date`, both ends included. */
  function AssignedTooManyTimesRecently(v: PersonView, date: int): (r: bool)
    ensures r <==> AssignmentChecker.CountInWindow(v.assignedDates, date - 21, date) +
                   AssignmentChecker.CountInWindow(v.preachingDates, date - 21, date) >= 3
  {
    AssignmentChecker.HasExceededConsecutiveAssignments(
      v.assignedDates, v.preachingDates, date, ConsecutiveAssignmentsLimit)
  }

  /** The per-role fatigue check: the role's own history reaches the limit in the window of
      `limit` weeks ending on `date`. Preaching dates do not count, and a role never assigned is
      never over the limit. */
  function RoleAssignedTooManyTimesRecently(v: PersonView, role: Role, date: int, limit: PositiveInt): (r: bool)
    ensures r <==> AssignmentChecker.CountInWindow(
      RoleHistory(v, role), date - AssignmentChecker.DaysPerWeek * limit, date) >= limit
    ensures role !in v.roleAssignedDates ==> !r
  {
    AssignmentChecker.HasExceededConsecutiveAssignments(RoleHistory(v, role), [], date, limit)
  }

  /** The person's next preaching date on or after `date` is at most a week away: some
      preaching date lies in [date, date + 7]. */
  function UnavailableDueToPreaching(v: PersonView, date: int): (r: bool)
    ensures r <==>
      exists i :: 0 <= i < |v.preachingDates| && date <= v.preachingDates[i] <= date + PreachingBufferDays
  {
    var next := NextPreachingDate(v.preachingDates, date);
    if next.Some? && next.value - date <= PreachingBufferDays then
      assert exists i :: 0 <= i < |v.preachingDates| && v.preachingDates[i] == next.value;
      true
    else
      false
  }

  /** Whether `rule` lets `v` take `role` on `date`, given the preacher of the day. A rule that
      does not concern the person or the role passes: the worship-leader rules for every other
      role, the Lulu rule for everyone but Lulu as emcee, the Gee rule for everyone but Gee as
      worship leader. */
  function Holds(rule: Rule, v: PersonView, role: Role, date: int, preacher: Option<Preacher>): (r: bool)
    ensures (rule == WorshipLeaderTeaching || rule == WorshipLeaderPreachingConflict) && role != WorshipLeader ==> r
    ensures rule == LuluEmcee && !(v.name == "Lulu" && role == Emcee) ==> r
    ensures rule == GeeWorshipLeader && !(v.name == "Gee" && role == WorshipLeader) ==> r
  {
    match rule
    case RoleCapability => role in v.roles
    case OnLeave => !v.onLeave
    case BlockoutDate => date !in v.blockoutDates
    case PreachingDate => date !in v.preachingDates
    case RoleTimeWindow => NotAssignedTooRecently(v, role, date)
    case ConsecutiveAssignmentLimit => !AssignedTooManyTimesRecently(v, date)
    case ConsecutiveRoleAssignmentLimit(limit) => !RoleAssignedTooManyTimesRecently(v, role, date, limit)
    case WorshipLeaderTeaching => role == WorshipLeader ==> date !in v.teachingDates
    case WorshipLeaderPreachingConflict => role == WorshipLeader ==> !UnavailableDueToPreaching(v, date)
    case LuluEmcee =>
      v.name == "Lulu" && role == Emcee ==> preacher.Some? && preacher.value.name == "Edmund"
    case GeeWorshipLeader =>
      v.name == "Gee" && role == WorshipLeader ==> preacher.None? || preacher.value.name != "Kris"
  }

  /** The worship-leader rules leave every other role alone; for the worship leader, the teaching
      rule fails exactly on a teaching date. */
  lemma WorshipLeaderRulesScope(v: PersonView, role: Role, date: int, preacher: Option<Preacher>)
    ensures role != WorshipLeader ==>
      Holds(WorshipLeaderTeaching, v, role, date, preacher) &&
      Holds(WorshipLeaderPreachingConflict, v, role, date, preacher)
    ensures role == WorshipLeader ==>
      (!Holds(WorshipLeaderTeaching, v, role, date, preacher) <==> date in v.teachingDates)
  {
  }

  /** The preaching-conflict rule, stated without the next-date search: a worship leader is
      eligible iff none of their preaching dates lies in [date, date + 7]. */
  lemma PreachingConflictWindow(v: PersonView, date: int, preacher: Option<Preacher>)
    ensures Holds(WorshipLeaderPreachingConflict, v, WorshipLeader, date, preacher) <==>
      forall i :: 0 <= i < |v.preachingDates| ==>
        v.preachingDates[i] < date || v.preachingDates[i] > date + PreachingBufferDays
  {
    var next := NextPreachingDate(v.preachingDates, date);
    if next.Some? && next.value - date <= PreachingBufferDays {
      var i :| 0 <= i < |v.preachingDates| && v.preachingDates[i] == next.value;
      assert !(v.preachingDates[i] < date || v.preachingDates[i] > date + PreachingBufferDays);
    }
  }

  /** The cases the worship-leader preaching-conflict rule is pinned to: preaching the same day
      or a week later bars the person, preaching a week earlier or two weeks later does not. */
  lemma PreachingConflictExamples(v: PersonView, date: int, preacher: Option<Preacher>)
    ensures v.preachingDates == [date] ==> !Holds(WorshipLeaderPreachingConflict, v, WorshipLeader, date, preacher)
    ensures v.preachingDates == [date + 7] ==> !Holds(WorshipLeaderPreachingConflict, v, WorshipLeader, date, preacher)
    ensures v.preachingDates == [date - 7] ==> Holds(WorshipLeaderPreachingConflict, v, WorshipLeader, date, preacher)
    ensures v.preachingDates == [date + 14] ==> Holds(WorshipLeaderPreachingConflict, v, WorshipLeader, date, preacher)
  {
    PreachingConflictWindow(v, date, preacher);
  }

  /** The cooldown cases the role-time-window rule is pinned to: a worship leader or Sunday-school
      teacher last assigned exactly four weeks earlier is barred and five weeks earlier is not; an
      emcee last assigned two weeks earlier is barred and three weeks earlier is not; a role never
      assigned is never barred. */
  lemma RoleTimeWindowExamples(v: PersonView, role: Role, date: int, preacher: Option<Preacher>)
    ensures (role == WorshipLeader || role == SundaySchoolTeacher) && LastAssigned(v, role) == Some(date - 28)
      ==> !Holds(RoleTimeWindow, v, role, date, preacher)
    ensures (role == WorshipLeader || role == SundaySchoolTeacher) && LastAssigned(v, role) == Some(date - 35)
      ==> Holds(RoleTimeWindow, v, role, date, preacher)
    ensures role == Emcee && LastAssigned(v, role) == Some(date - 14) ==> !Holds(RoleTimeWindow, v, role, date, preacher)
    ensures role == Emcee && LastAssigned(v, role) == Some(date - 21) ==> Holds(RoleTimeWindow, v, role, date, preacher)
    ensures LastAssigned(v, role).None? ==> Holds(RoleTimeWindow, v, role, date, preacher)
  {
  }

  /** The fatigue cases the consecutive-assignment rule is pinned to: two assignments in the two
      previous weeks leave the person eligible, three in the three previous weeks do not. */
  lemma ConsecutiveLimitExamples(v: PersonView, role: Role, date: int, preacher: Option<Preacher>)
    requires v.preachingDates == []
    ensures v.assignedDates == [date - 7, date - 14] ==> Holds(ConsecutiveAssignmentLimit, v, role, date, preacher)
    ensures v.assignedDates == [date - 7, date - 14, date - 21] ==>
      !Holds(ConsecutiveAssignmentLimit, v, role, date, preacher)
  {
    assert v.assignedDates + v.preachingDates == v.assignedDates;
    var lo := date - AssignmentChecker.DaysPerWeek * ConsecutiveAssignmentsLimit;
    var three := [date - 7, date - 14, date - 21];
    assert three[1..] == [date - 14, date - 21] && three[2..] == [date - 21];
    assert AssignmentChecker.CountInWindow([date - 21], lo, date) == 1;
    assert AssignmentChecker.CountInWindow(three, lo, date) == 3;
  }

  /** The named exception rules constrain only their own (person, role) pair. */
  lemma NamedRulesScope(v: PersonView, role: Role, date: int, preacher: Option<Preacher>)
    ensures !(v.name == "Lulu" && role == Emcee) ==> Holds(LuluEmcee, v, role, date, preacher)
    ensures v.name == "Lulu" && role == Emcee ==>
      (Holds(LuluEmcee, v, role, date, preacher) <==> preacher.Some? && preacher.value.name == "Edmund")
    ensures !(v.name == "Gee" && role == WorshipLeader) ==> Holds(GeeWorshipLeader, v, role, date, preacher)
    ensures v.name == "Gee" && role == WorshipLeader ==>
      (Holds(GeeWorshipLeader, v, role, date, preacher) <==> preacher.None? || preacher.value.name != "Kris")
  {
  }

  /** Consecutive entries of `dates` lie more than `gap` days apart. */
  predicate Spaced(dates: seq<int>, gap: int) {
    forall i :: 0 < i < |dates| ==> dates[i] - dates[i - 1] > gap
  }

  /** Every role with a cooldown has a history whose consecutive entries are spaced by more than
      the cooldown. */
  ghost predicate CooldownRespected(v: PersonView) {
    forall role :: role in v.roleAssignedDates && CooldownDays(role).Some? ==>
      Spaced(v.roleAssignedDates[role], CooldownDays(role).value)
  }

  /** Spacing of consecutive entries by a non-negative gap spaces every pair: any two assignments
      to the role, the later one in the history at position j, lie more than the gap apart. */
  lemma {:induction false} SpacedAllPairs(dates: seq<int>, gap: int, i: int, j: int)
    requires gap >= 0 && Spaced(dates, gap)
    requires 0 <= i < j < |dates|
    ensures dates[j] - dates[i] > gap
    decreases j - i
  {
    if i + 1 < j {
      SpacedAllPairs(dates, gap, i, j - 1);
    }
  }

  /** Recording an assignment that the role-time-window rule allowed keeps the cooldown invariant. */
  lemma AssignmentKeepsCooldown(v: PersonView, d: int, role: Role, preacher: Option<Preacher>)
    requires HistoryConsistent(v) && CooldownRespected(v) && role in v.roles
    requires Holds(RoleTimeWindow, v, role, d, preacher)
    ensures CooldownRespected(Assigned(v, d, role))
  {
    var w := Assigned(v, d, role);
    if CooldownDays(role).Some? {
      SpacedAppend(v.roleAssignedDates[role], CooldownDays(role).value, d);
    }
    forall r | r in w.roleAssignedDates && CooldownDays(r).Some?
      ensures Spaced(w.roleAssignedDates[r], CooldownDays(r).value)
    {
      if r != role {
        assert w.roleAssignedDates[r] == v.roleAssignedDates[r];
      }
    }
  }

  /** A date more than `gap` days after the last entry keeps the entries spaced. */
  lemma SpacedAppend(dates: seq<int>, gap: int, d: int)
    requires Spaced(dates, gap) && (dates != [] ==> d - dates[|dates| - 1] > gap)
    ensures Spaced(dates + [d], gap)
  {
    var after := dates + [d];
    forall i | 0 < i < |after| ensures after[i] - after[i - 1] > gap {
      if i == |after| - 1 {
        assert after[i - 1] == dates[|dates| - 1];
      } else {
        assert after[i] == dates[i] && after[i - 1] == dates[i - 1];
      }
    }
  }

  /** The fatigue cap after assignment: if the consecutive-assignment rule allowed the assignment
      on `d`, then afterwards the window of the limit's weeks ending on `d` holds at most the
      limit's number of assigned and preaching dates. */
  lemma AssignmentKeepsFatigueCap(v: PersonView, d: int, role: Role, preacher: Option<Preacher>)
    requires role in v.roleAssignedDates
    requires Holds(ConsecutiveAssignmentLimit, v, role, d, preacher)
    ensures var w := Assigned(v, d, role);
      AssignmentChecker.CountInWindow(w.assignedDates + w.preachingDates,
        d - AssignmentChecker.DaysPerWeek * ConsecutiveAssignmentsLimit, d) <= ConsecutiveAssignmentsLimit
  {
    var lo := d - AssignmentChecker.DaysPerWeek * ConsecutiveAssignmentsLimit;
    AssignmentChecker.CountAppend(v.assignedDates, v.preachingDates, lo, d);
    AssignmentChecker.CountAppend(v.assignedDates, [d], lo, d);
    AssignmentChecker.CountAppend(v.assignedDates + [d], v.preachingDates, lo, d);
  }
}
