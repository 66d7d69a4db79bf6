/** The schedule builder: for each event date, fills the roles in priority order with eligible
    team members, never using a person twice on the same date. */
module Scheduling {
  import opened Roles
  import opened Wrappers
  import opened Preachers
  import opened People
  import opened Rules
  import opened Eligibility
  import opened Events
  import opened Rotation

  /** The rules the builder applies, in evaluation order. */
  const ScheduleRules: seq<Rule> := [
    RoleCapability, LuluEmcee, GeeWorshipLeader, OnLeave, BlockoutDate, PreachingDate,
    RoleTimeWindow, ConsecutiveAssignmentLimit, ConsecutiveRoleAssignmentLimit(2),
    WorshipLeaderTeaching, WorshipLeaderPreachingConflict]

  /** Passing the builder's rules implies being capable of the role and respecting the role's
      cooldown and the overall fatigue limit. */
  lemma ScheduleRulesInclude(v: PersonView, role: Role, date: int, preacher: Option<Preacher>)
    requires AllRulesPass(ScheduleRules, v, role, date, preacher)
    ensures role in v.roles && !v.onLeave && date !in v.blockoutDates && date !in v.preachingDates
    ensures Holds(RoleTimeWindow, v, role, date, preacher)
    ensures Holds(ConsecutiveAssignmentLimit, v, role, date, preacher)
  {
    assert Holds(ScheduleRules[0], v, role, date, preacher);
    assert Holds(ScheduleRules[3], v, role, date, preacher);
    assert Holds(ScheduleRules[4], v, role, date, preacher);
    assert Holds(ScheduleRules[5], v, role, date, preacher);
    assert Holds(ScheduleRules[6], v, role, date, preacher);
    assert Holds(ScheduleRules[7], v, role, date, preacher);
  }

  /** The members of `pool` that pass every rule, in pool order. */
  function EligibleAmong(rules: seq<Rule>, pool: seq<Person>, role: Role, date: int, preacher: Option<Preacher>)
    : (r: seq<Person>)
    reads set p | p in pool
    ensures forall i :: 0 <= i < |r| ==> r[i] in pool && AllRulesPass(rules, r[i].View(), role, date, preacher)
    ensures forall i :: 0 <= i < |pool| && AllRulesPass(rules, pool[i].View(), role, date, preacher) ==> pool[i] in r
    ensures |r| <= |pool|
  {
    if pool == [] then []
    else
      var init := EligibleAmong(rules, pool[..|pool| - 1], role, date, preacher);
      var last := pool[|pool| - 1];
      if AllRulesPass(rules, last.View(), role, date, preacher) then init + [last] else init
  }

  /** Looking at one more member of the pool extends the eligible list by that member exactly
      when it passes every rule. */
  lemma EligibleAmongNext(rules: seq<Rule>, pool: seq<Person>, i: nat, role: Role, date: int,
                          preacher: Option<Preacher>)
    requires i < |pool|
    ensures EligibleAmong(rules, pool[..i + 1], role, date, preacher) ==
      EligibleAmong(rules, pool[..i], role, date, preacher) +
      (if AllRulesPass(rules, pool[i].View(), role, date, preacher) then [pool[i]] else [])
  {
    var seen := pool[..i + 1];
    assert seen[..|seen| - 1] == pool[..i] && seen[|seen| - 1] == pool[i];
  }

  /** The members of `pool` whose snapshot in `views` passes every rule, in pool order. */
  function EligibleIn(rules: seq<Rule>, pool: seq<Person>, views: map<Person, PersonView>, role: Role, date: int,
                      preacher: Option<Preacher>): (r: seq<Person>)
    ensures forall i :: 0 <= i < |r| ==>
      r[i] in pool && r[i] in views && AllRulesPass(rules, views[r[i]], role, date, preacher)
    ensures forall i :: 0 <= i < |pool| && pool[i] in views && AllRulesPass(rules, views[pool[i]], role, date, preacher) ==>
      pool[i] in r
  {
    if pool == [] then []
    else
      var init := EligibleIn(rules, pool[..|pool| - 1], views, role, date, preacher);
      var last := pool[|pool| - 1];
      if last in views && AllRulesPass(rules, views[last], role, date, preacher) then init + [last] else init
  }

  /** When `views` holds the pool's current snapshots, filtering the pool by the snapshots is
      filtering the pool itself. */
  lemma {:induction false} EligibleAmongViews(rules: seq<Rule>, pool: seq<Person>, views: map<Person, PersonView>,
                                              role: Role, date: int, preacher: Option<Preacher>)
    requires forall i :: 0 <= i < |pool| ==> pool[i] in views && views[pool[i]] == pool[i].View()
    ensures EligibleAmong(rules, pool, role, date, preacher) == EligibleIn(rules, pool, views, role, date, preacher)
    decreases |pool|
  {
    if pool != [] {
      var init := pool[..|pool| - 1];
      forall i | 0 <= i < |init| ensures init[i] in views && views[init[i]] == init[i].View() {
        assert init[i] == pool[i];
      }
      EligibleAmongViews(rules, init, views, role, date, preacher);
    }
  }

  /** `pool` without its first occurrence of `p`. */
  function RemoveFirst(pool: seq<Person>, p: Person): (r: seq<Person>)
    requires p in pool
    ensures |r| == |pool| - 1
    ensures forall i :: 0 <= i < |r| ==> r[i] in pool
    ensures forall q :: q in pool && q != p ==> q in r
    ensures UniqueNames(pool) ==> UniqueNames(r) && p !in r
  {
    TailOf(pool);
    if pool[0] == p then
      pool[1..]
    else
      var rest := RemoveFirst(pool[1..], p);
      ConsUnique(pool[0], rest, pool[1..]);
      ConsMembers(pool, rest);
      [pool[0]] + rest
  }

  /** What the tail of a non-empty pool keeps: every other member, and unique names. */
  lemma TailOf(pool: seq<Person>)
    requires pool != []
    ensures forall q :: q in pool && q != pool[0] ==> q in pool[1..]
    ensures UniqueNames(pool) ==>
      UniqueNames(pool[1..]) && forall k :: 0 <= k < |pool[1..]| ==> pool[1..][k].name != pool[0].name
  {
    forall q | q in pool && q != pool[0] ensures q in pool[1..] {
      var k :| 0 <= k < |pool| && pool[k] == q;
      assert pool[1..][k - 1] == q;
    }
    if UniqueNames(pool) {
      forall i, j | 0 <= i < j < |pool[1..]| ensures pool[1..][i].name != pool[1..][j].name {
        assert pool[1..][i] == pool[i + 1] && pool[1..][j] == pool[j + 1];
      }
      forall k | 0 <= k < |pool[1..]| ensures pool[1..][k].name != pool[0].name {
        assert pool[1..][k] == pool[k + 1];
      }
    }
  }

  /** Putting a member in front of members drawn from a tail of other names keeps names unique. */
  lemma ConsUnique(x: Person, rest: seq<Person>, tail: seq<Person>)
    requires forall i :: 0 <= i < |rest| ==> rest[i] in tail
    ensures UniqueNames(rest) && (forall k :: 0 <= k < |tail| ==> tail[k].name != x.name) ==>
      UniqueNames([x] + rest)
  {
    var r := [x] + rest;
    if UniqueNames(rest) && forall k :: 0 <= k < |tail| ==> tail[k].name != x.name {
      forall i, j | 0 <= i < j < |r| ensures r[i].name != r[j].name {
        assert r[j] == rest[j - 1];
        if i > 0 {
          assert r[i] == rest[i - 1];
        }
      }
    }
  }

  /** The members of the pool with its head put back in front of a sub-pool of its tail. */
  lemma ConsMembers(pool: seq<Person>, rest: seq<Person>)
    requires pool != [] && forall i :: 0 <= i < |rest| ==> rest[i] in pool[1..]
    ensures forall i :: 0 <= i < |[pool[0]] + rest| ==> ([pool[0]] + rest)[i] in pool
    ensures forall q :: q in rest ==> q in [pool[0]] + rest
  {
    var r := [pool[0]] + rest;
    forall i | 0 <= i < |r| ensures r[i] in pool {
      if i > 0 {
        assert r[i] == rest[i - 1];
      }
    }
    forall q | q in rest ensures q in r {
      var k :| 0 <= k < |rest| && rest[k] == q;
      assert r[k + 1] == q;
    }
  }

  /** In a team with unique names, two different members have different names. */
  lemma DistinctMembersDistinctNames(team: seq<Person>, a: Person, b: Person)
    requires UniqueNames(team) && a in team && b in team && a != b
    ensures a.name != b.name
  {
    var i :| 0 <= i < |team| && team[i] == a;
    var j :| 0 <= j < |team| && team[j] == b;
  }

  /** What an assignment the builder's rules allow preserves about the assignee's snapshot:
      the role is one of the person's, the history stays consistent, and the cooldown
      invariant is kept. */
  lemma AssignInvariants(v: PersonView, role: Role, date: int, preacher: Option<Preacher>)
    requires HistoryConsistent(v) && AllRulesPass(ScheduleRules, v, role, date, preacher)
    ensures role in v.roles && role in v.roleAssignedDates
    ensures HistoryConsistent(Assigned(v, date, role))
    ensures CooldownRespected(v) ==> CooldownRespected(Assigned(v, date, role))
  {
    ScheduleRulesInclude(v, role, date, preacher);
    AssignedKeepsHistoryConsistent(v, date, role);
    if CooldownRespected(v) {
      AssignmentKeepsCooldown(v, date, role, preacher);
    }
  }

  /** `b` is a later state of the person snapshotted as `a`: the overall history only grew, and
      a cooldown invariant that held still holds. */
  ghost predicate Grown(a: PersonView, b: PersonView) {
    a.assignedDates <= b.assignedDates && (CooldownRespected(a) ==> CooldownRespected(b))
  }

  /** Every snapshot in `views` of a member of `members` is consistent and has only grown since
      its snapshot in `start`. */
  ghost predicate Progressed(members: seq<Person>, start: map<Person, PersonView>, views: map<Person, PersonView>)
    decreases |members|
  {
    members != [] ==>
      members[0] in start && members[0] in views && HistoryConsistent(views[members[0]]) &&
      Grown(start[members[0]], views[members[0]]) && Progressed(members[1..], start, views)
  }

  /** What Progressed says about one member. */
  lemma {:induction false} ProgressedMember(members: seq<Person>, start: map<Person, PersonView>,
                                            views: map<Person, PersonView>, p: Person)
    requires Progressed(members, start, views) && p in members
    ensures p in start && p in views && HistoryConsistent(views[p]) && Grown(start[p], views[p])
    decreases |members|
  {
    if members[0] != p {
      assert p in members[1..];
      ProgressedMember(members[1..], start, views, p);
    }
  }

  /** Replacing one snapshot by a consistent, grown one keeps Progressed. */
  lemma {:induction false} ProgressedUpdate(members: seq<Person>, start: map<Person, PersonView>,
                                            views: map<Person, PersonView>, p: Person, v: PersonView)
    requires Progressed(members, start, views)
    requires p in members ==> p in start && HistoryConsistent(v) && Grown(start[p], v)
    ensures Progressed(members, start, views[p := v])
    decreases |members|
  {
    if members != [] {
      assert p in members[1..] ==> p in members;
      ProgressedUpdate(members[1..], start, views, p, v);
    }
  }

  /** Consistent snapshots have progressed from themselves. */
  lemma {:induction false} ProgressedStart(members: seq<Person>, views: map<Person, PersonView>)
    requires forall i :: 0 <= i < |members| ==> members[i] in views && HistoryConsistent(views[members[i]])
    ensures Progressed(members, views, views)
    decreases |members|
  {
    if members != [] {
      ProgressedStart(members[1..], views);
    }
  }

  /** The team's snapshots on `date` after the roles at the first `k` positions of the priority
      order have been given to the members `who` names (a role absent from `who` stayed empty). */
  function Step(views: map<Person, PersonView>, date: int, who: map<Role, Person>, k: nat): (r: map<Person, PersonView>)
    requires k <= |PriorityOrder|
    ensures r.Keys == views.Keys
    decreases k
  {
    if k == 0 then views
    else
      var prev := Step(views, date, who, k - 1);
      var role := PriorityOrder[k - 1];
      if role in who && who[role] in prev && role in prev[who[role]].roleAssignedDates
      then prev[who[role] := Assigned(prev[who[role]], date, role)]
      else prev
  }

  /** A role left out of `who` changes no snapshot. */
  lemma StepSkip(views: map<Person, PersonView>, date: int, who: map<Role, Person>, k: nat)
    requires k < |PriorityOrder| && PriorityOrder[k] !in who
    ensures Step(views, date, who, k + 1) == Step(views, date, who, k)
  {
  }

  /** Step only looks at the roles of the first `k` positions. */
  lemma {:induction false} StepAgrees(views: map<Person, PersonView>, date: int, who1: map<Role, Person>,
                                      who2: map<Role, Person>, k: nat)
    requires k <= |PriorityOrder|
    requires forall j :: 0 <= j < k ==>
      (PriorityOrder[j] in who1 <==> PriorityOrder[j] in who2) &&
      (PriorityOrder[j] in who1 ==> who1[PriorityOrder[j]] == who2[PriorityOrder[j]])
    ensures Step(views, date, who1, k) == Step(views, date, who2, k)
    decreases k
  {
    if k > 0 {
      StepAgrees(views, date, who1, who2, k - 1);
    }
  }

  /** Giving the role at position `k` to `p` adds exactly `p`'s assignment to the snapshots. */
  lemma StepExtend(views: map<Person, PersonView>, date: int, who: map<Role, Person>, k: nat, p: Person)
    requires k < |PriorityOrder| && PriorityOrder[k] !in who && p in views
    requires PriorityOrder[k] in Step(views, date, who, k)[p].roleAssignedDates
    ensures var prev := Step(views, date, who, k);
      Step(views, date, who[PriorityOrder[k] := p], k + 1) == prev[p := Assigned(prev[p], date, PriorityOrder[k])]
  {
    PriorityOrderIsEnumeration();
    StepAgrees(views, date, who, who[PriorityOrder[k] := p], k);
  }

  /** Giving the role at position `k` to `p` changes neither the snapshots nor who is free at
      any position up to `k`. */
  lemma AssignAgrees(views: map<Person, PersonView>, date: int, who: map<Role, Person>, k: nat, p: Person, j: nat)
    requires j <= k < |PriorityOrder| && PriorityOrder[k] !in who
    ensures Step(views, date, who[PriorityOrder[k] := p], j) == Step(views, date, who, j)
    ensures forall q :: FreeAt(who[PriorityOrder[k] := p], q, j) == FreeAt(who, q, j)
  {
    PriorityOrderIsEnumeration();
    assert forall i :: 0 <= i < j ==> PriorityOrder[i] != PriorityOrder[k];
    StepAgrees(views, date, who, who[PriorityOrder[k] := p], j);
  }

  /** The position of a role in the priority order. */
  lemma PriorityPosition(r: Role) returns (j: nat)
    ensures j < |PriorityOrder| && PriorityOrder[j] == r
  {
    PriorityOrderIsEnumeration();
    assert r in PriorityOrder;
    j :| 0 <= j < |PriorityOrder| && PriorityOrder[j] == r;
  }

  /** `q` was given none of the roles at the first `j` positions. */
  ghost predicate FreeAt(who: map<Role, Person>, q: Person, j: int) {
    forall i :: 0 <= i < j && i < |PriorityOrder| && PriorityOrder[i] in who ==> who[PriorityOrder[i]] != q
  }

  /** A member given none of the first `k` roles keeps their snapshot. */
  lemma {:induction false} StepKeepsFree(views: map<Person, PersonView>, date: int, who: map<Role, Person>,
                                         q: Person, k: nat)
    requires k <= |PriorityOrder| && q in views && FreeAt(who, q, k)
    ensures Step(views, date, who, k)[q] == views[q]
    decreases k
  {
    if k > 0 {
      StepKeepsFree(views, date, who, q, k - 1);
    }
  }

  /** A member given exactly one of the first `k` roles, at position `j`, ends with their
      snapshot plus that one assignment. */
  lemma {:induction false} StepAssignsOnce(views: map<Person, PersonView>, date: int, who: map<Role, Person>,
                                           q: Person, j: nat, k: nat)
    requires j < k <= |PriorityOrder| && q in views
    requires PriorityOrder[j] in who && who[PriorityOrder[j]] == q
    requires PriorityOrder[j] in views[q].roleAssignedDates
    requires forall i :: 0 <= i < k && i != j && PriorityOrder[i] in who ==> who[PriorityOrder[i]] != q
    ensures Step(views, date, who, k)[q] == Assigned(views[q], date, PriorityOrder[j])
    decreases k
  {
    if k == j + 1 {
      StepKeepsFree(views, date, who, q, j);
    } else {
      StepAssignsOnce(views, date, who, q, j, k - 1);
    }
  }

  /** No two roles of `who` went to people with the same name. */
  ghost predicate DistinctNames(who: map<Role, Person>) {
    forall r1, r2 :: r1 in who && r2 in who && r1 != r2 ==> who[r1].name != who[r2].name
  }

  /** `slots` hold, for exactly the roles of `who`, the name of the member given the role. */
  ghost predicate SlotsMatch(slots: map<Role, Option<string>>, who: map<Role, Person>) {
    forall r: Role :: r in slots && (slots[r].Some? <==> r in who) && (r in who ==> slots[r] == Some(who[r].name))
  }

  /** The pool has unique names, nobody given a role is in it, and no two roles went to the
      same name. */
  ghost predicate FreeAndDistinct(pool: seq<Person>, who: map<Role, Person>) {
    && UniqueNames(pool)
    && (forall r :: r in who ==> who[r] !in pool)
    && DistinctNames(who)
  }

/** Taking the free member `p` out of the pool and giving them the `k`-th role keeps the pool
      inside the team and holding everybody still free at the next position. */
  lemma PoolAfterAssign(team: seq<Person>, pool: seq<Person>, who: map<Role, Person>, k: nat, p: Person)
    requires k < |PriorityOrder| && p in pool
    requires forall i :: 0 <= i < |pool| ==> pool[i] in team
    requires forall i :: 0 <= i < |team| && FreeAt(who, team[i], k) ==> team[i] in pool
    ensures forall i :: 0 <= i < |RemoveFirst(pool, p)| ==> RemoveFirst(pool, p)[i] in team
    ensures forall i :: 0 <= i < |team| && FreeAt(who[PriorityOrder[k] := p], team[i], k + 1) ==>
      team[i] in RemoveFirst(pool, p)
  {
    PriorityOrderIsEnumeration();
    var who' := who[PriorityOrder[k] := p];
    forall i | 0 <= i < |team| && FreeAt(who', team[i], k + 1) ensures team[i] in RemoveFirst(pool, p) {
      assert team[i] != p by { assert who'[PriorityOrder[k]] == p; }
      forall n | 0 <= n < k && PriorityOrder[n] in who ensures who[PriorityOrder[n]] != team[i] {
        assert PriorityOrder[n] != PriorityOrder[k];
        assert PriorityOrder[n] in who' && who'[PriorityOrder[n]] == who[PriorityOrder[n]];
      }
    }
  }

  /** With unique team names, taking `p` out of the pool and giving them `role` keeps the pool's
      names unique, nobody with a role in the pool and no name on two roles. */
  lemma DistinctAfterAssign(team: seq<Person>, pool: seq<Person>, who: map<Role, Person>, role: Role, p: Person)
    requires UniqueNames(team) && FreeAndDistinct(pool, who) && p in pool
    requires forall i :: 0 <= i < |pool| ==> pool[i] in team
    requires forall r :: r in who ==> who[r] in team
    ensures FreeAndDistinct(RemoveFirst(pool, p), who[role := p])
  {
    assert p in team by {
      var n :| 0 <= n < |pool| && pool[n] == p;
    }
    forall r | r in who ensures who[r].name != p.name {
      DistinctMembersDistinctNames(team, who[r], p);
    }
  }

  /** Filling the empty slot of `role` with `p`'s name matches giving `role` to `p`. */
  lemma SlotsAfterAssign(slots: map<Role, Option<string>>, who: map<Role, Person>, role: Role, p: Person)
    requires SlotsMatch(slots, who) && role !in who
    ensures slots[role] == None && SlotsMatch(slots[role := Some(p.name)], who[role := p])
  {
  }

  /** The decisions of one event date: the team's snapshots and the rotation cursor when the
      date was started, and the member given each filled role. */
  datatype DatePick = DatePick(views: map<Person, PersonView>, cursor: int, who: map<Role, Person>)

  /** `views` holds the current snapshot of every member of `members`. */
  ghost predicate ViewsAre(members: seq<Person>, views: map<Person, PersonView>)
    reads set p | p in members
    decreases |members|
  {
    members != [] ==>
      members[0] in views && members[0].View() == views[members[0]] && ViewsAre(members[1..], views)
  }

  /** ViewsAre, stated member by member. */
  ghost predicate AllViewsAre(members: seq<Person>, views: map<Person, PersonView>)
    reads set p | p in members
  {
    forall i :: 0 <= i < |members| ==> members[i] in views && members[i].View() == views[members[i]]
  }

  /** What ViewsAre says about one member. */
  lemma {:induction false} ViewsMember(members: seq<Person>, views: map<Person, PersonView>, p: Person)
    requires ViewsAre(members, views) && p in members
    ensures p in views && p.View() == views[p]
    decreases |members|
  {
    if members[0] != p {
      assert p in members[1..];
      ViewsMember(members[1..], views, p);
    }
  }

  /** ViewsAre over `members` gives the current snapshot of every element of `sub`, a part of
      `members`. */
  lemma ViewsSub(members: seq<Person>, sub: seq<Person>, views: map<Person, PersonView>)
    requires ViewsAre(members, views) && forall i :: 0 <= i < |sub| ==> sub[i] in members
    ensures forall i :: 0 <= i < |sub| ==> sub[i] in views && views[sub[i]] == sub[i].View()
  {
    forall i | 0 <= i < |sub| ensures sub[i] in views && views[sub[i]] == sub[i].View() {
      ViewsMember(members, views, sub[i]);
    }
  }

  /** ViewsAre gives the member-by-member facts. */
  lemma {:induction false} ViewsAll(members: seq<Person>, views: map<Person, PersonView>)
    requires ViewsAre(members, views)
    ensures AllViewsAre(members, views)
  {
    forall i | 0 <= i < |members| ensures members[i] in views && members[i].View() == views[members[i]] {
      ViewsMember(members, views, members[i]);
    }
  }

  /** Member-by-member facts give ViewsAre. */
  lemma {:induction false} ViewsFromAll(members: seq<Person>, views: map<Person, PersonView>)
    requires AllViewsAre(members, views)
    ensures ViewsAre(members, views)
    decreases |members|
  {
    if members != [] {
      forall i | 0 <= i < |members[1..]|
        ensures members[1..][i] in views && members[1..][i].View() == views[members[1..][i]]
      {
        assert members[1..][i] == members[i + 1];
      }
      ViewsFromAll(members[1..], views);
    }
  }

  /** Filled slots never share a name when the members behind them have distinct names. */
  lemma NoNameTwiceFromDistinct(e: Event, who: map<Role, Person>)
    requires SlotsMatch(e.slots, who) && DistinctNames(who)
    ensures e.NoNameTwice()
  {
  }

  class Schedule {
    const team: seq<Person>
    const eventDates: seq<int>
    const preachers: seq<Preacher>
    const selector: WorshipLeaderSelector
    const checker: EligibilityChecker
    var events: seq<Event>

    ghost predicate Valid()
      reads selector
    {
      selector.Valid() && checker.rules == ScheduleRules
    }

    /** A new schedule has no events, a rotation cursor at the start and the builder's rules. */
    constructor(team: seq<Person>, eventDates: seq<int>, preachers: seq<Preacher>, rotation: seq<string>)
      ensures this.team == team && this.eventDates == eventDates && this.preachers == preachers
      ensures events == [] && fresh(selector) && selector.rotation == rotation && selector.index == 0
      ensures Valid()
    {
      this.team := team;
      this.eventDates := eventDates;
      this.preachers := preachers;
      events := [];
      selector := new WorshipLeaderSelector(rotation, 0);
      checker := new EligibilityChecker(ScheduleRules);
    }

    /** The members of `pool` that pass every rule of the checker, in pool order. */
    method FilterEligible(role: Role, pool: seq<Person>, eventDate: int, preacher: Option<Preacher>)
      returns (eligible: seq<Person>)
      ensures eligible == EligibleAmong(checker.rules, pool, role, eventDate, preacher)
    {
      eligible := [];
      var i := 0;
      while i < |pool|
        invariant 0 <= i <= |pool|
        invariant eligible == EligibleAmong(checker.rules, pool[..i], role, eventDate, preacher)
      {
        var ok: bool;
        ghost var looked: nat;
        ok, looked := checker.IsEligible(pool[i], role, eventDate, preacher);
        EligibleAmongNext(checker.rules, pool, i, role, eventDate, preacher);
        if ok {
          eligible := eligible + [pool[i]];
        }
        i := i + 1;
      }
      assert pool[..|pool|] == pool;
    }

    /** A person from `pool` for `role` on `eventDate`: None iff nobody in the pool passes every
        rule; otherwise someone who does. For the worship leader the rotation is asked first and
        its pick, when there is one, is the answer; any other pick is an unspecified member of the
        eligible list. Only the worship-leader role moves the rotation cursor. */
    method GetEligiblePerson(role: Role, pool: seq<Person>, eventDate: int, preacher: Option<Preacher>)
      returns (chosen: Option<Person>)
      requires Valid()
      modifies selector
      ensures Valid()
      ensures chosen.None? <==> EligibleAmong(ScheduleRules, pool, role, eventDate, preacher) == []
      ensures chosen.Some? ==>
        chosen.value in pool && AllRulesPass(ScheduleRules, chosen.value.View(), role, eventDate, preacher)
      ensures role == WorshipLeader ==>
        var s := Select(selector.rotation, old(selector.index), EligibleAmong(ScheduleRules, pool, role, eventDate, preacher));
        selector.index == s.nextIndex && (s.picked.Some? ==> chosen == s.picked)
      ensures role != WorshipLeader ==> selector.index == old(selector.index)
    {
      if pool == [] {
        SelectIsFirstCircularMatch(selector.rotation, selector.index, []);
        return None;
      }
      var eligible := FilterEligible(role, pool, eventDate, preacher);
      if eligible == [] {
        SelectIsFirstCircularMatch(selector.rotation, selector.index, eligible);
        return None;
      }
      if role == WorshipLeader {
        var next := selector.GetNext(eligible);
        if next.Some? {
          ghost var k :| 0 <= k < |eligible| && eligible[k] == next.value;
          return next;
        }
      }
      var k :| 0 <= k < |eligible|;
      return Some(eligible[k]);
    }

    /** Every team member's history is consistent. */
    ghost predicate TeamValid()
      reads set p | p in team
    {
      forall i :: 0 <= i < |team| ==> team[i].Valid()
    }

    /** Every member's snapshot in `views` is consistent and has only grown since `start`. */
    ghost predicate TeamProgress(start: map<Person, PersonView>, views: map<Person, PersonView>) {
      Progressed(team, start, views)
    }

    /** An assignment the builder's rules allow keeps every member consistent and grown. */
    lemma ProgressAssign(start: map<Person, PersonView>, views: map<Person, PersonView>, p: Person, role: Role,
                         date: int, preacher: Option<Preacher>)
      requires TeamProgress(start, views) && p in team && p in views
      requires AllRulesPass(ScheduleRules, views[p], role, date, preacher)
      ensures role in views[p].roles && role in views[p].roleAssignedDates && HistoryConsistent(views[p])
      ensures TeamProgress(start, views[p := Assigned(views[p], date, role)])
    {
      ProgressedMember(team, start, views, p);
      AssignInvariants(views[p], role, date, preacher);
      ProgressedUpdate(team, start, views, p, Assigned(views[p], date, role));
    }

    /** The rotation's answer for a date started with the snapshots `views` and the cursor
        `cursor`: the selection among the team members eligible as worship leader. */
    function RotationPick(views: map<Person, PersonView>, cursor: int, date: int): Selection {
      if selector.rotation == [] || 0 <= cursor < |selector.rotation| then
        Select(selector.rotation, cursor,
               EligibleIn(ScheduleRules, team, views, WorshipLeader, date, PreacherOn(preachers, date)))
      else Selection(None, cursor)
    }

    /** The role at priority position `j` was decided on `date` as the builder decides it: if
        filled, it went to a member whose snapshot at that moment passed every rule; if empty,
        no team member still free at that moment passed every rule for it. */
    ghost predicate DecidedAt(date: int, d: DatePick, j: nat)
      requires j < |PriorityOrder|
    {
      var preacher := PreacherOn(preachers, date);
      var role := PriorityOrder[j];
      var cur := Step(d.views, date, d.who, j);
      && (role in d.who ==> d.who[role] in cur && AllRulesPass(ScheduleRules, cur[d.who[role]], role, date, preacher))
      && (role !in d.who ==>
            forall i :: 0 <= i < |team| && team[i] in cur && FreeAt(d.who, team[i], j) ==>
              !AllRulesPass(ScheduleRules, cur[team[i]], role, date, preacher))
    }

    /** The roles at the first `k` priority positions were decided on `date` as the builder
        decides them: each filled role went to a team member whose snapshot at that moment passed
        every rule; a role left empty had no eligible team member among those still free; and the
        worship leader is the rotation's pick whenever the rotation has one. Later roles are open. */
    ghost predicate Decided(date: int, d: DatePick, k: nat)
      requires k <= |PriorityOrder|
    {
      var preacher := PreacherOn(preachers, date);
      && (forall i :: 0 <= i < |team| ==> team[i] in d.views)
      && (forall r :: r in d.who ==> d.who[r] in team && d.who[r] in d.views)
      && (forall j :: k <= j < |PriorityOrder| ==> PriorityOrder[j] !in d.who)
      && (forall j :: 0 <= j < k ==> DecidedAt(date, d, j))
      && (k > 0 && RotationPick(d.views, d.cursor, date).picked.Some? ==>
            WorshipLeader in d.who && d.who[WorshipLeader] == RotationPick(d.views, d.cursor, date).picked.value)
    }

    /** The state of an event's slots while its roles are filled in priority order: the first
        `k` roles are decided and the slots show them; `pool` is the part of the team still free
        on this date; with unique team names, nobody given a role is still free and no two
        roles went to the same name. */
    ghost predicate Filling(date: int, d: DatePick, k: nat, pool: seq<Person>, slots: map<Role, Option<string>>) {
      && k <= |PriorityOrder|
      && Decided(date, d, k)
      && SlotsMatch(slots, d.who)
      && (forall i :: 0 <= i < |pool| ==> pool[i] in team)
      && (forall i :: 0 <= i < |team| && FreeAt(d.who, team[i], k) ==> team[i] in pool)
      && (UniqueNames(team) ==> FreeAndDistinct(pool, d.who))
      && (k == 0 ==> pool == team && d.who == map[])
    }

    /** Leaving the `k`-th role empty, because nobody in the pool is eligible, keeps the filling
        invariant. */
    lemma FillingSkip(date: int, d: DatePick, k: nat, pool: seq<Person>, slots: map<Role, Option<string>>)
      requires k < |PriorityOrder| && Filling(date, d, k, pool, slots)
      requires EligibleIn(ScheduleRules, pool, Step(d.views, date, d.who, k), PriorityOrder[k], date,
                          PreacherOn(preachers, date)) == []
      ensures Filling(date, d, k + 1, pool, slots)
    {
      var preacher := PreacherOn(preachers, date);
      var cur := Step(d.views, date, d.who, k);
      forall i | 0 <= i < |team| && team[i] in cur && FreeAt(d.who, team[i], k)
        ensures !AllRulesPass(ScheduleRules, cur[team[i]], PriorityOrder[k], date, preacher)
      {
        var n :| 0 <= n < |pool| && pool[n] == team[i];
      }
      if k == 0 {
        PriorityOrderIsEnumeration();
        if selector.rotation == [] || 0 <= d.cursor < |selector.rotation| {
          SelectIsFirstCircularMatch(selector.rotation, d.cursor, []);
        }
      }
      DecidedSkip(date, d, k);
      forall i | 0 <= i < |team| && FreeAt(d.who, team[i], k + 1) ensures team[i] in pool {
        assert FreeAt(d.who, team[i], k);
      }
    }

    /** A role left empty, because no free member could take it, keeps every earlier decision and
        decides its own position. */
    lemma DecidedSkip(date: int, d: DatePick, k: nat)
      requires k < |PriorityOrder| && Decided(date, d, k)
      requires forall i :: 0 <= i < |team| && team[i] in Step(d.views, date, d.who, k) && FreeAt(d.who, team[i], k) ==>
        !AllRulesPass(ScheduleRules, Step(d.views, date, d.who, k)[team[i]], PriorityOrder[k], date, PreacherOn(preachers, date))
      requires k == 0 ==> RotationPick(d.views, d.cursor, date).picked.None?
      ensures Decided(date, d, k + 1)
    {
      forall j | 0 <= j < k + 1 ensures DecidedAt(date, d, j) {
        if j < k {
          assert DecidedAt(date, d, j);
        }
      }
    }

    /** Giving the `k`-th role to the team member `p`, whose snapshot passes every rule, keeps
        the decisions made so far and adds this one. */
    lemma DecidedAssign(date: int, d: DatePick, k: nat, p: Person)
      requires k < |PriorityOrder| && Decided(date, d, k) && p in team && p in d.views
      requires AllRulesPass(ScheduleRules, Step(d.views, date, d.who, k)[p], PriorityOrder[k], date,
                            PreacherOn(preachers, date))
      requires k == 0 && RotationPick(d.views, d.cursor, date).picked.Some? ==> p == RotationPick(d.views, d.cursor, date).picked.value
      ensures Decided(date, d.(who := d.who[PriorityOrder[k] := p]), k + 1)
    {
      PriorityOrderIsEnumeration();
      var d' := d.(who := d.who[PriorityOrder[k] := p]);
      forall j | 0 <= j <= k ensures DecidedAt(date, d', j) {
        if j < k {
          assert DecidedAt(date, d, j);
        }
        DecidedAtAssign(date, d, k, p, j);
      }
    }

    /** Giving the `k`-th role to `p` keeps the decision at an earlier position `j`, and decides
        position `k` itself when `p`'s snapshot passes every rule. */
    lemma DecidedAtAssign(date: int, d: DatePick, k: nat, p: Person, j: nat)
      requires j <= k < |PriorityOrder| && PriorityOrder[k] !in d.who && p in d.views
      requires j < k ==> DecidedAt(date, d, j)
      requires j == k ==> AllRulesPass(ScheduleRules, Step(d.views, date, d.who, k)[p], PriorityOrder[k], date,
                                       PreacherOn(preachers, date))
      ensures DecidedAt(date, d.(who := d.who[PriorityOrder[k] := p]), j)
    {
      PriorityOrderIsEnumeration();
      AssignAgrees(d.views, date, d.who, k, p, j);
    }

    /** Giving the `k`-th role to the free member `p`, whose snapshot passes every rule, keeps
        the filling invariant, with `p` out of the pool. */
    lemma FillingAssign(date: int, d: DatePick, k: nat, pool: seq<Person>, slots: map<Role, Option<string>>, p: Person)
      requires k < |PriorityOrder| && Filling(date, d, k, pool, slots) && p in pool && p in d.views
      requires AllRulesPass(ScheduleRules, Step(d.views, date, d.who, k)[p], PriorityOrder[k], date,
                            PreacherOn(preachers, date))
      requires k == 0 && RotationPick(d.views, d.cursor, date).picked.Some? ==> p == RotationPick(d.views, d.cursor, date).picked.value
      ensures slots[PriorityOrder[k]] == None
      ensures Filling(date, d.(who := d.who[PriorityOrder[k] := p]), k + 1, RemoveFirst(pool, p),
                      slots[PriorityOrder[k] := Some(p.name)])
    {
      var role := PriorityOrder[k];
      assert p in team by {
        var n :| 0 <= n < |pool| && pool[n] == p;
      }
      DecidedAssign(date, d, k, p);
      PoolAfterAssign(team, pool, d.who, k, p);
      if UniqueNames(team) {
        DistinctAfterAssign(team, pool, d.who, role, p);
      }
      SlotsAfterAssign(slots, d.who, role, p);
    }

    /** One step of the builder's role loop: asks for an eligible member of `pool` for `role`
        and, if there is one, gives them the role and takes them out of the pool. `cur` holds
        the team's current snapshots. A member is chosen exactly when some member of the pool
        is eligible; the worship leader is the rotation's pick whenever it has one. */
    method FillRole(e: Event, role: Role, pool: seq<Person>, preacher: Option<Preacher>,
                    ghost start: map<Person, PersonView>, ghost cur: map<Person, PersonView>)
      returns (newPool: seq<Person>, ghost chosen: Option<Person>)
      requires Valid() && e.Valid() && e.slots[role] == None
      requires forall i :: 0 <= i < |pool| ==> pool[i] in team
      requires ViewsAre(team, cur) && TeamProgress(start, cur)
      modifies selector, e, set p | p in team
      ensures Valid() && e.Valid()
      ensures chosen.Some? <==> EligibleIn(ScheduleRules, pool, cur, role, e.date, preacher) != []
      ensures chosen.None? ==> newPool == pool && e.slots == old(e.slots) && ViewsAre(team, cur)
      ensures chosen.Some? ==>
        var p := chosen.value;
        p in pool && p in cur && AllRulesPass(ScheduleRules, cur[p], role, e.date, preacher) &&
        role in cur[p].roleAssignedDates && newPool == RemoveFirst(pool, p) && e.slots == old(e.slots)[role := Some(p.name)] &&
        ViewsAre(team, cur[p := Assigned(cur[p], e.date, role)]) &&
        TeamProgress(start, cur[p := Assigned(cur[p], e.date, role)])
      ensures role == WorshipLeader ==>
        var s := Select(selector.rotation, old(selector.index), EligibleIn(ScheduleRules, pool, cur, role, e.date, preacher));
        selector.index == s.nextIndex && (s.picked.Some? ==> chosen == s.picked)
      ensures role != WorshipLeader ==> selector.index == old(selector.index)
    {
      ViewsSub(team, pool, cur);
      var candidate := GetEligiblePerson(role, pool, e.date, preacher);
      EligibleAmongViews(ScheduleRules, pool, cur, role, e.date, preacher);
      chosen := candidate;
      if candidate.None? {
        newPool := pool;
        return;
      }
      newPool := GiveRole(e, role, pool, candidate.value, preacher, start, cur);
    }

    /** Gives `role` to `p`, an eligible member of the pool, and takes `p` out of the pool: the
        slot gets `p`'s name, `p`'s snapshot gains the assignment, every other member's is
        unchanged, and every member stays consistent and grown. */
    method GiveRole(e: Event, role: Role, pool: seq<Person>, p: Person, preacher: Option<Preacher>,
                    ghost start: map<Person, PersonView>, ghost cur: map<Person, PersonView>)
      returns (newPool: seq<Person>)
      requires e.Valid() && e.slots[role] == None && p in pool
      requires forall i :: 0 <= i < |pool| ==> pool[i] in team
      requires ViewsAre(team, cur) && TeamProgress(start, cur)
      requires p in cur && AllRulesPass(ScheduleRules, cur[p], role, e.date, preacher)
      modifies e, set p | p in team
      ensures e.Valid() && newPool == RemoveFirst(pool, p) && e.slots == old(e.slots)[role := Some(p.name)]
      ensures role in cur[p].roleAssignedDates
      ensures ViewsAre(team, cur[p := Assigned(cur[p], e.date, role)])
      ensures TeamProgress(start, cur[p := Assigned(cur[p], e.date, role)])
    {
      assert p in team by {
        var n :| 0 <= n < |pool| && pool[n] == p;
      }
      ProgressAssign(start, cur, p, role, e.date, preacher);
      Commit(e, role, p, cur);
      newPool := RemoveFirst(pool, p);
    }

    /** Where the role loop stands before the `k`-th role: that role comes first exactly when it
        is the worship leader's, its slot is still empty, and for the worship leader the
        rotation's pick for the date is its selection among the pool's eligible members. */
    lemma RoleRotation(date: int, d: DatePick, k: nat, pool: seq<Person>, slots: map<Role, Option<string>>)
      requires k < |PriorityOrder| && Filling(date, d, k, pool, slots)
      requires k == 0 ==> selector.rotation == [] || 0 <= d.cursor < |selector.rotation|
      ensures PriorityOrder[k] == WorshipLeader <==> k == 0
      ensures PriorityOrder[k] in slots && slots[PriorityOrder[k]] == None
      ensures k == 0 ==>
        RotationPick(d.views, d.cursor, date) == Select(selector.rotation, d.cursor,
          EligibleIn(ScheduleRules, pool, Step(d.views, date, d.who, k), WorshipLeader, date, PreacherOn(preachers, date)))
    {
      PriorityOrderIsEnumeration();
    }

    /** One step of the role loop, as FillRole reports it, keeps the filling invariant and moves
        the snapshots one position on. */
    lemma FillingNext(date: int, d: DatePick, k: nat, pool: seq<Person>, slots: map<Role, Option<string>>,
                      chosen: Option<Person>, newPool: seq<Person>,
                      newSlots: map<Role, Option<string>>)
      requires k < |PriorityOrder| && Filling(date, d, k, pool, slots)
      requires chosen.Some? <==>
        EligibleIn(ScheduleRules, pool, Step(d.views, date, d.who, k), PriorityOrder[k], date, PreacherOn(preachers, date)) != []
      requires chosen.None? ==> newPool == pool && newSlots == slots
      requires chosen.Some? ==>
        var p := chosen.value;
        p in pool && p in d.views && newPool == RemoveFirst(pool, p) &&
        AllRulesPass(ScheduleRules, Step(d.views, date, d.who, k)[p], PriorityOrder[k], date, PreacherOn(preachers, date)) &&
        PriorityOrder[k] in Step(d.views, date, d.who, k)[p].roleAssignedDates &&
        newSlots == slots[PriorityOrder[k] := Some(p.name)]
      requires k == 0 && RotationPick(d.views, d.cursor, date).picked.Some? ==> chosen == RotationPick(d.views, d.cursor, date).picked
      ensures var who := if chosen.Some? then d.who[PriorityOrder[k] := chosen.value] else d.who;
        var cur := Step(d.views, date, d.who, k);
        && Filling(date, d.(who := who), k + 1, newPool, newSlots)
        && Step(d.views, date, who, k + 1) ==
             if chosen.Some? then cur[chosen.value := Assigned(cur[chosen.value], date, PriorityOrder[k])] else cur
    {
      if chosen.None? {
        FillingSkip(date, d, k, pool, slots);
        StepSkip(d.views, date, d.who, k);
      } else {
        var p := chosen.value;
        FillingAssign(date, d, k, pool, slots, p);
        StepExtend(d.views, date, d.who, k, p);
      }
    }

    /** Fills the empty slot of `role` with the team member `p` and records the assignment in
        `p`'s history: `p`'s snapshot gains the assignment and every other member's is unchanged. */
    method Commit(e: Event, role: Role, p: Person, ghost views: map<Person, PersonView>)
      requires ViewsAre(team, views) && e.Valid() && e.slots[role] == None && p in team
      requires p in views && role in views[p].roles && HistoryConsistent(views[p])
      modifies e, p
      ensures e.Valid() && e.slots == old(e.slots)[role := Some(p.name)]
      ensures ViewsAre(team, views[p := Assigned(views[p], e.date, role)])
    {
      ViewsMember(team, views, p);
      ViewsAll(team, views);
      var outcome := e.AssignRole(role, p);
      ghost var after := views[p := Assigned(views[p], e.date, role)];
      forall i | 0 <= i < |team| ensures team[i] in after && team[i].View() == after[team[i]] {
        if team[i] != p {
          assert old(team[i].View()) == views[team[i]];
        }
      }
      ViewsFromAll(team, after);
    }

    /** The event of `date` is the builder's: its date, team and preachers, all twelve roles
        decided as Decided says and shown by the slots, and, when team names are unique, no
        name twice. */
    ghost predicate DateScheduled(e: Event, date: int, d: DatePick)
      reads e
    {
      e.date == date && e.team == team && e.preachers == preachers && SlotsDecided(e.slots, date, d)
    }

    /** The slots of the event of `date` show all twelve roles decided as Decided says, and, when
        team names are unique, hold no name twice. */
    ghost predicate SlotsDecided(slots: map<Role, Option<string>>, date: int, d: DatePick) {
      (forall r: Role :: r in slots) && SlotsMatch(slots, d.who) && Decided(date, d, |PriorityOrder|) &&
      (UniqueNames(team) ==> DistinctNames(d.who) && SlotsNoNameTwice(slots))
    }

    /** The team's snapshots once every role of the date is decided. */
    function ViewsAfter(d: DatePick, date: int): map<Person, PersonView> {
      Step(d.views, date, d.who, |PriorityOrder|)
    }

    /** What a date does to the histories, when no two roles went to the same name: each member
        given a role gains exactly that assignment, and every other member is unchanged. */
    lemma DateRecordsAssignments(date: int, d: DatePick)
      requires Decided(date, d, |PriorityOrder|) && DistinctNames(d.who)
      ensures forall r :: r in d.who ==> r in d.views[d.who[r]].roles
      ensures forall r :: r in d.who && r in d.views[d.who[r]].roleAssignedDates ==>
        ViewsAfter(d, date)[d.who[r]] == Assigned(d.views[d.who[r]], date, r)
      ensures forall i :: 0 <= i < |team| && (forall r :: r in d.who ==> d.who[r] != team[i]) ==>
        ViewsAfter(d, date)[team[i]] == d.views[team[i]]
    {
      forall r | r in d.who
        ensures r in d.views[d.who[r]].roles
        ensures r in d.views[d.who[r]].roleAssignedDates ==> ViewsAfter(d, date)[d.who[r]] == Assigned(d.views[d.who[r]], date, r)
      {
        DateRecordsRole(date, d, r);
      }
      forall i | 0 <= i < |team| && (forall r :: r in d.who ==> d.who[r] != team[i])
        ensures ViewsAfter(d, date)[team[i]] == d.views[team[i]]
      {
        StepKeepsFree(d.views, date, d.who, team[i], |PriorityOrder|);
      }
    }

    /** The member given role `r` on the date could take it, and gains exactly that assignment. */
    lemma DateRecordsRole(date: int, d: DatePick, r: Role)
      requires Decided(date, d, |PriorityOrder|) && DistinctNames(d.who) && r in d.who
      ensures r in d.views[d.who[r]].roles
      ensures r in d.views[d.who[r]].roleAssignedDates ==> ViewsAfter(d, date)[d.who[r]] == Assigned(d.views[d.who[r]], date, r)
    {
      PriorityOrderIsEnumeration();
      var q := d.who[r];
      var j := PriorityPosition(r);
      assert forall i :: 0 <= i < |PriorityOrder| && i != j && PriorityOrder[i] in d.who ==> d.who[PriorityOrder[i]] != q;
      StepKeepsFree(d.views, date, d.who, q, j);
      assert DecidedAt(date, d, j);
      ScheduleRulesInclude(Step(d.views, date, d.who, j)[q], r, date, PreacherOn(preachers, date));
      if r in d.views[q].roleAssignedDates {
        StepAssignsOnce(d.views, date, d.who, q, j, |PriorityOrder|);
      }
    }

    /** The ghost state of the role loop before the `k`-th role: the filling invariant holds,
        `cur` holds the snapshots after the roles decided so far, and every member's snapshot is
        consistent and has only grown since `start`. */
    ghost predicate RoleLoop(date: int, d: DatePick, k: nat, pool: seq<Person>, slots: map<Role, Option<string>>,
                             start: map<Person, PersonView>, cur: map<Person, PersonView>) {
      k <= |PriorityOrder| && Filling(date, d, k, pool, slots) && cur == Step(d.views, date, d.who, k) &&
      TeamProgress(start, cur)
    }

    /** Where the role loop of `event` stands before the `k`-th role: RoleLoop holds for the
        event's slots, `cur` holds the team's current snapshots, and the rotation cursor has
        moved exactly when the worship leader's role was decided. */
    ghost predicate RolesUpTo(event: Event, d: DatePick, k: nat, pool: seq<Person>,
                              start: map<Person, PersonView>, cur: map<Person, PersonView>)
      reads selector, event, set p | p in team
    {
      Valid() && event.Valid() && RoleLoop(event.date, d, k, pool, event.slots, start, cur) && ViewsAre(team, cur) &&
      selector.index == if k == 0 then d.cursor else RotationPick(d.views, d.cursor, event.date).nextIndex
    }

    /** One pass of the role loop: decides the `k`-th role of the priority order with FillRole
        and records the decision in the date's picks, keeping the filling invariant. */
    method DecideRole(event: Event, k: nat, pool: seq<Person>, preacher: Option<Preacher>,
                      ghost start: map<Person, PersonView>, ghost d0: DatePick, ghost cur0: map<Person, PersonView>)
      returns (newPool: seq<Person>, ghost d: DatePick, ghost cur: map<Person, PersonView>)
      requires k < |PriorityOrder| && preacher == PreacherOn(preachers, event.date)
      requires RolesUpTo(event, d0, k, pool, start, cur0)
      modifies selector, event, set p | p in team
      ensures d.views == d0.views && d.cursor == d0.cursor
      ensures RolesUpTo(event, d, k + 1, newPool, start, cur)
    {
      d, cur := d0, cur0;
      var eventDate := event.date;
        var role := PriorityOrder[k];
        RoleRotation(eventDate, d, k, pool, event.slots);
        ghost var slots := event.slots;
        ghost var chosen;
        var rest;
        rest, chosen := FillRole(event, role, pool, preacher, start, cur);
        FillingNext(eventDate, d, k, pool, slots, chosen, rest, event.slots);
        d := d.(who := if chosen.Some? then d.who[role := chosen.value] else d.who);
        cur := if chosen.Some? then cur[chosen.value := Assigned(cur[chosen.value], eventDate, role)] else cur;
        newPool := rest;
    }

    /** Decides the roles of a new event in priority order, each filled by an eligible team
        member not yet used on this date, or left empty when there is none. `views` are the
        team's snapshots when the date starts. */
    method FillEvent(event: Event, ghost start: map<Person, PersonView>, ghost views: map<Person, PersonView>)
      returns (ghost d: DatePick, ghost pool: seq<Person>)
      requires Valid() && event.Valid() && forall r: Role :: event.slots[r] == None
      requires event.team == team && event.preachers == preachers
      requires ViewsAre(team, views) && TeamProgress(start, views)
      modifies selector, event, set p | p in team
      ensures d.views == views && d.cursor == old(selector.index)
      ensures RolesUpTo(event, d, |PriorityOrder|, pool, start, ViewsAfter(d, event.date))
    {
      var preacher := event.AssignedPreacher();
      var rest := team;
      d := DatePick(views, selector.index, map[]);
      FillingStart(event.date, d, event.slots);
      ghost var cur := views;
      for k := 0 to |PriorityOrder|
        invariant d.views == views && d.cursor == old(selector.index)
        // `== true` keeps the invariant one fact, matched whole against DecideRole's postcondition
        invariant RolesUpTo(event, d, k, rest, start, cur) == true
      {
        rest, d, cur := DecideRole(event, k, rest, preacher, start, d, cur);
      }
      pool := rest;
    }

    /** Before any role is decided, the whole team is free and the filling invariant holds. */
    lemma FillingStart(date: int, d: DatePick, slots: map<Role, Option<string>>)
      requires d.who == map[] && ViewsAre(team, d.views) && forall r: Role :: r in slots && slots[r] == None
      ensures Filling(date, d, 0, team, slots)
    {
      ViewsAll(team, d.views);
    }

    /** Builds the event of one date: a new event whose roles are then decided in priority
        order. `views` are the team's snapshots when the date starts; the result records the
        decisions. */
    method ScheduleDate(eventDate: int, ghost start: map<Person, PersonView>, ghost views: map<Person, PersonView>)
      returns (event: Event, ghost d: DatePick)
      requires Valid() && ViewsAre(team, views) && TeamProgress(start, views)
      modifies selector, set p | p in team
      ensures Valid() && fresh(event) && d.views == views && d.cursor == old(selector.index)
      ensures DateScheduled(event, eventDate, d)
      ensures ViewsAre(team, ViewsAfter(d, eventDate)) && TeamProgress(start, ViewsAfter(d, eventDate))
      ensures selector.index == RotationPick(d.views, d.cursor, eventDate).nextIndex
    {
      event := new Event(eventDate, team, preachers);
      ghost var pool;
      d, pool := FillEvent(event, start, views);
      FilledDate(event, eventDate, d, pool);
    }

    /** Once all roles are decided, the event is the builder's event for the date. */
    lemma FilledDate(e: Event, date: int, d: DatePick, pool: seq<Person>)
      requires Filling(date, d, |PriorityOrder|, pool, e.slots) && e.Valid()
      requires e.date == date && e.team == team && e.preachers == preachers
      ensures DateScheduled(e, date, d)
    {
      if UniqueNames(team) {
        NoNameTwiceFromDistinct(e, d.who);
      }
    }

    /** The snapshots after the dates of `picks`, starting from `start`. */
    function FinalViews(start: map<Person, PersonView>, picks: seq<DatePick>): map<Person, PersonView> {
      if picks == [] || |picks| > |eventDates| then start
      else ViewsAfter(picks[|picks| - 1], eventDates[|picks| - 1])
    }

    /** The rotation cursor after the dates of `picks`, starting from `cursor`. */
    function FinalCursor(cursor: int, picks: seq<DatePick>): int {
      if picks == [] || |picks| > |eventDates| then cursor
      else RotationPick(picks[|picks| - 1].views, picks[|picks| - 1].cursor, eventDates[|picks| - 1]).nextIndex
    }

    /** The dates of `picks` were scheduled one after the other: each started from the snapshots
        and the cursor the dates before it left. */
    ghost predicate Chained(start: map<Person, PersonView>, cursor: int, picks: seq<DatePick>) {
      |picks| <= |eventDates| &&
      forall i :: 0 <= i < |picks| ==>
        picks[i].views == FinalViews(start, picks[..i]) && picks[i].cursor == FinalCursor(cursor, picks[..i])
    }

    /** A date started where the earlier ones left off extends the chain. */
    lemma ChainedExtend(start: map<Person, PersonView>, cursor: int, picks: seq<DatePick>, d: DatePick)
      requires Chained(start, cursor, picks) && |picks| < |eventDates|
      requires d.views == FinalViews(start, picks) && d.cursor == FinalCursor(cursor, picks)
      ensures Chained(start, cursor, picks + [d])
      ensures FinalViews(start, picks + [d]) == ViewsAfter(d, eventDates[|picks|])
      ensures FinalCursor(cursor, picks + [d]) == RotationPick(d.views, d.cursor, eventDates[|picks|]).nextIndex
    {
      var ext := picks + [d];
      forall i | 0 <= i < |ext|
        ensures ext[i].views == FinalViews(start, ext[..i]) && ext[i].cursor == FinalCursor(cursor, ext[..i])
      {
        if i < |picks| {
          assert ext[..i] == picks[..i] && ext[i] == picks[i];
        } else {
          assert ext[..i] == picks && ext[i] == d;
        }
      }
      assert ext[|ext| - 1] == d;
    }

    /** Every event of `built` was scheduled by the builder on its date. */
    ghost predicate AllScheduled(built: seq<Event>, picks: seq<DatePick>)
      reads set e | e in built
    {
      |built| == |picks| <= |eventDates| &&
      forall i :: 0 <= i < |built| ==> DateScheduled(built[i], eventDates[i], picks[i])
    }

    /** The dates of `picks` were scheduled one after the other from `start` and `cursor`, `built`
        holds their events, and the team's snapshots and the rotation cursor are where those
        dates left them. */
    ghost predicate DatesDone(start: map<Person, PersonView>, cursor: int, built: seq<Event>, picks: seq<DatePick>)
      reads selector, set e | e in built, set p | p in team
    {
      Valid() && AllScheduled(built, picks) && Chained(start, cursor, picks) &&
      ViewsAre(team, FinalViews(start, picks)) && TeamProgress(start, FinalViews(start, picks)) &&
      selector.index == FinalCursor(cursor, picks)
    }

    /** One pass of the date loop: schedules the next event date with ScheduleDate and records
        its event and decisions. */
    method ScheduleNext(ghost start: map<Person, PersonView>, ghost cursor: int, built: seq<Event>,
                        ghost picks: seq<DatePick>)
      returns (event: Event, ghost d: DatePick)
      requires |built| < |eventDates| && DatesDone(start, cursor, built, picks)
      modifies selector, set p | p in team
      ensures fresh(event) && DatesDone(start, cursor, built + [event], picks + [d])
    {
      event, d := ScheduleDate(eventDates[|built|], start, FinalViews(start, picks));
      DatesExtend(start, cursor, built, picks, event, d);
    }

    /** A date scheduled from where the dates of `picks` left off extends them. */
    lemma DatesExtend(start: map<Person, PersonView>, cursor: int, built: seq<Event>, picks: seq<DatePick>,
                      event: Event, d: DatePick)
      requires |built| < |eventDates| && AllScheduled(built, picks) && Chained(start, cursor, picks)
      requires Valid() && d.views == FinalViews(start, picks) && d.cursor == FinalCursor(cursor, picks)
      requires DateScheduled(event, eventDates[|built|], d)
      requires ViewsAre(team, ViewsAfter(d, eventDates[|built|])) && TeamProgress(start, ViewsAfter(d, eventDates[|built|]))
      requires selector.index == RotationPick(d.views, d.cursor, eventDates[|built|]).nextIndex
      ensures DatesDone(start, cursor, built + [event], picks + [d])
    {
      ChainedExtend(start, cursor, picks, d);
      ScheduledExtend(built, picks, event, d);
    }

    /** An event scheduled on the next date extends the events scheduled so far. */
    lemma ScheduledExtend(built: seq<Event>, picks: seq<DatePick>, event: Event, d: DatePick)
      requires |built| < |eventDates| && AllScheduled(built, picks)
      requires DateScheduled(event, eventDates[|built|], d)
      ensures AllScheduled(built + [event], picks + [d])
    {
      var k := |built|;
      var built', picks' := built + [event], picks + [d];
      forall i | 0 <= i < |built'| ensures DateScheduled(built'[i], eventDates[i], picks'[i]) {
        if i < k {
          assert built'[i] == built[i] && picks'[i] == picks[i];
        } else {
          assert built'[i] == event && picks'[i] == d;
        }
      }
    }

    /** Schedules the event dates in order: one new event per date, each date starting from the
        histories and the rotation cursor the previous dates left. */
    method ScheduleDates(ghost start: map<Person, PersonView>) returns (built: seq<Event>, ghost picks: seq<DatePick>)
      requires Valid() && ViewsAre(team, start) && TeamProgress(start, start)
      modifies selector, set p | p in team
      ensures Valid() && |built| == |eventDates|
      ensures (forall e | e in built :: fresh(e)) && AllScheduled(built, picks)
      ensures Chained(start, old(selector.index), picks)
      ensures ViewsAre(team, FinalViews(start, picks)) && TeamProgress(start, FinalViews(start, picks))
      ensures selector.index == FinalCursor(old(selector.index), picks)
    {
      built, picks := [], [];
      for k := 0 to |eventDates|
        invariant |built| == k && (forall e | e in built :: fresh(e))
        // `== true` keeps the invariant one fact, matched whole against ScheduleNext's postcondition
        invariant DatesDone(start, old(selector.index), built, picks) == true
      {
        var event;
        ghost var d;
        event, d := ScheduleNext(start, old(selector.index), built, picks);
        built, picks := built + [event], picks + [d];
      }
    }

    /** Schedules every event date in order and appends each event to the schedule's events;
        with an empty team nothing is scheduled. `start` is the team as it was before; `picks`
        records every date's decisions, chained date after date, and the team's histories and
        the rotation cursor end as those decisions leave them. Every member's history stays
        consistent and has only grown, and cooldowns that were respected still are. */
    method Build() returns (scheduled: seq<Event>, members: seq<Person>, ghost made: seq<Event>,
                            ghost picks: seq<DatePick>, ghost start: map<Person, PersonView>)
      requires Valid() && TeamValid()
      modifies this, selector, set p | p in team
      ensures Valid()
      ensures forall i :: 0 <= i < |team| ==> team[i] in start && start[team[i]] == old(team[i].View())
      ensures team == [] ==> scheduled == [] && members == [] && made == [] && picks == []
      ensures team != [] ==> scheduled == events && members == team && |made| == |eventDates|
      ensures events == old(events) + made && (forall e | e in made :: fresh(e)) && AllScheduled(made, picks)
      ensures Chained(start, old(selector.index), picks)
      ensures ViewsAre(team, FinalViews(start, picks)) && TeamProgress(start, FinalViews(start, picks))
      ensures selector.index == FinalCursor(old(selector.index), picks)
    {
      start := map q | q in team :: q.View();
      assert AllViewsAre(team, start);
      ViewsFromAll(team, start);
      ProgressedStart(team, start);
      if team == [] {
        return [], [], [], [], start;
      }
      made, picks := AppendDates(start);
      return events, team, made, picks, start;
    }

    /** Schedules the event dates and appends their events to the schedule's events. */
    method AppendDates(ghost start: map<Person, PersonView>) returns (made: seq<Event>, ghost picks: seq<DatePick>)
      requires Valid() && ViewsAre(team, start) && TeamProgress(start, start)
      modifies this, selector, set p | p in team
      ensures Valid() && |made| == |eventDates|
      ensures events == old(events) + made && (forall e | e in made :: fresh(e)) && AllScheduled(made, picks)
      ensures Chained(start, old(selector.index), picks)
      ensures ViewsAre(team, FinalViews(start, picks)) && TeamProgress(start, FinalViews(start, picks))
      ensures selector.index == FinalCursor(old(selector.index), picks)
    {
      made, picks := ScheduleDates(start);
      events := events + made;
    }
  }
}
