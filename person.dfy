/** A team member: static availability plus an append-only assignment history. */
module People {
  import opened Roles
  import opened Wrappers

  /** A snapshot of everything a person carries, static and historical. The eligibility rules
      and the status classifier are functions of such a snapshot. */
  datatype PersonView = PersonView(
    name: string,
    roles: seq<Role>,
    blockoutDates: seq<int>,
    preachingDates: seq<int>,
    teachingDates: seq<int>,
    onLeave: bool,
    assignedDates: seq<int>,
    lastAssignedDates: map<Role, Option<int>>,
    roleAssignedDates: map<Role, seq<int>>)

  /** The sum, over the roles of `rs`, of the length of each role's history in `m`
      (a role absent from `m` contributes nothing). */
  function SumLengths(rs: seq<Role>, m: map<Role, seq<int>>): nat {
    if rs == [] then 0
    else (if rs[0] in m then |m[rs[0]]| else 0) + SumLengths(rs[1..], m)
  }

  /** The history invariant: both per-role maps are keyed by exactly the capable roles; a role's
      last assigned date is unset iff its per-role list is empty and otherwise is the list's
      last element; and the overall history is as long as all per-role histories together. */
  ghost predicate HistoryConsistent(v: PersonView) {
    && (forall r :: r in v.lastAssignedDates <==> r in v.roles)
    && (forall r :: r in v.roleAssignedDates <==> r in v.roles)
    && (forall r :: r in v.roles ==>
          (v.lastAssignedDates[r].None? <==> v.roleAssignedDates[r] == []) &&
          (v.roleAssignedDates[r] != [] ==>
             v.lastAssignedDates[r] == Some(v.roleAssignedDates[r][|v.roleAssignedDates[r]| - 1])))
    && |v.assignedDates| == SumLengths(PriorityOrder, v.roleAssignedDates)
  }

  /** The snapshot after recording an assignment to `role` on `d`. */
  function Assigned(v: PersonView, d: int, role: Role): PersonView
    requires role in v.roleAssignedDates
  {
    v.(assignedDates := v.assignedDates + [d],
       lastAssignedDates := v.lastAssignedDates[role := Some(d)],
       roleAssignedDates := v.roleAssignedDates[role := v.roleAssignedDates[role] + [d]])
  }

  /** Recording an assignment to a capable role keeps the history invariant. */
  lemma AssignedKeepsHistoryConsistent(v: PersonView, d: int, role: Role)
    requires HistoryConsistent(v) && role in v.roles
    ensures HistoryConsistent(Assigned(v, d, role))
  {
    var w := Assigned(v, d, role);
    PriorityOrderIsEnumeration();
    SumLengthsAppend(PriorityOrder, v.roleAssignedDates, role, d);
    forall r | r in w.roles
      ensures (w.lastAssignedDates[r].None? <==> w.roleAssignedDates[r] == [])
      ensures w.roleAssignedDates[r] != [] ==>
                w.lastAssignedDates[r] == Some(w.roleAssignedDates[r][|w.roleAssignedDates[r]| - 1])
    {
      if r == role {
        var l := w.roleAssignedDates[r];
        assert l == v.roleAssignedDates[r] + [d];
        assert l[|l| - 1] == d;
      } else {
        assert w.roleAssignedDates[r] == v.roleAssignedDates[r];
        assert w.lastAssignedDates[r] == v.lastAssignedDates[r];
      }
    }
  }

  /** Appending one date to the history of a role listed once in `rs` adds one to the sum. */
  lemma {:induction false} SumLengthsAppend(rs: seq<Role>, m: map<Role, seq<int>>, r: Role, d: int)
    requires NoDuplicates(rs) && r in m
    ensures SumLengths(rs, m[r := m[r] + [d]]) == SumLengths(rs, m) + (if r in rs then 1 else 0)
  {
    if rs != [] {
      assert NoDuplicates(rs[1..]);
      assert r in rs[1..] ==> rs[0] != r;
      SumLengthsAppend(rs[1..], m, r, d);
    }
  }

  /** With only empty histories, the sum is zero. */
  lemma {:induction false} SumLengthsEmpty(rs: seq<Role>, m: map<Role, seq<int>>)
    requires forall r :: r in m ==> m[r] == []
    ensures SumLengths(rs, m) == 0
  {
    if rs != [] {
      SumLengthsEmpty(rs[1..], m);
    }
  }

  /** The next preaching date on or after `reference`: None when no date qualifies, otherwise
      the smallest qualifying date. */
  function NextPreachingDate(preachingDates: seq<int>, reference: int): (r: Option<int>)
    ensures r.None? <==> forall i :: 0 <= i < |preachingDates| ==> preachingDates[i] < reference
    ensures r.Some? ==>
      r.value in preachingDates && r.value >= reference &&
      forall i :: 0 <= i < |preachingDates| && preachingDates[i] >= reference ==> r.value <= preachingDates[i]
  {
    if preachingDates == [] then None
    else
      var rest := NextPreachingDate(preachingDates[1..], reference);
      if preachingDates[0] < reference then rest
      else if rest.Some? && rest.value < preachingDates[0] then rest
      else Some(preachingDates[0])
  }

  /** The first member of `members` called `name`, or None if nobody is. */
  function FirstNamed(members: seq<Person>, name: string): (r: Option<Person>)
    ensures r.None? <==> forall i :: 0 <= i < |members| ==> members[i].name != name
    ensures r.Some? ==>
      r.value.name == name &&
      exists i :: 0 <= i < |members| && members[i] == r.value &&
                  forall j :: 0 <= j < i ==> members[j].name != name
  {
    if members == [] then None
    else if members[0].name == name then Some(members[0])
    else
      var rest := FirstNamed(members[1..], name);
      assert rest.Some? ==> exists i :: (0 <= i < |members| && members[i] == rest.value &&
                                         forall j :: 0 <= j < i ==> members[j].name != name) by {
        if rest.Some? {
          var k :| 0 <= k < |members[1..]| && members[1..][k] == rest.value &&
                   forall j :: 0 <= j < k ==> members[1..][j].name != name;
          assert members[k + 1] == rest.value;
        }
      }
      rest
  }

  /** No two members of the list share a name. */
  predicate UniqueNames(members: seq<Person>) {
    forall i, j :: 0 <= i < j < |members| ==> members[i].name != members[j].name
  }

  class Person {
    const name: string
    const roles: seq<Role>
    const blockoutDates: seq<int>
    const preachingDates: seq<int>
    const teachingDates: seq<int>
    const onLeave: bool

    var assignedDates: seq<int>
    var lastAssignedDates: map<Role, Option<int>>
    var roleAssignedDates: map<Role, seq<int>>

    function View(): PersonView
      reads this
    {
      PersonView(name, roles, blockoutDates, preachingDates, teachingDates, onLeave,
                 assignedDates, lastAssignedDates, roleAssignedDates)
    }

    ghost predicate Valid()
      reads this
    {
      HistoryConsistent(View())
    }

    /** A new person has an empty history: every capable role maps to an unset last date and
        to an empty per-role list. */
    constructor(name: string, roles: seq<Role>, blockoutDates: seq<int>, preachingDates: seq<int>,
                teachingDates: seq<int>, onLeave: bool)
      ensures this.name == name && this.roles == roles && this.onLeave == onLeave
      ensures this.blockoutDates == blockoutDates && this.preachingDates == preachingDates
      ensures this.teachingDates == teachingDates
      ensures assignedDates == []
      ensures lastAssignedDates.Keys == set r | r in roles
      ensures roleAssignedDates.Keys == set r | r in roles
      ensures forall r :: r in roles ==> lastAssignedDates[r] == None && roleAssignedDates[r] == []
      ensures Valid()
    {
      this.name := name;
      this.roles := roles;
      this.blockoutDates := blockoutDates;
      this.preachingDates := preachingDates;
      this.teachingDates := teachingDates;
      this.onLeave := onLeave;
      assignedDates := [];
      lastAssignedDates := map r | r in roles :: None;
      roleAssignedDates := map r | r in roles :: [];
      new;
      SumLengthsEmpty(PriorityOrder, roleAssignedDates);
    }

    /** Records an assignment to `role` on `eventDate`: the date is appended to the overall and
        to the per-role history, and becomes the role's last assigned date; nothing else changes. */
    method AssignEvent(eventDate: int, role: Role)
      requires Valid() && role in roles
      modifies this
      ensures assignedDates == old(assignedDates) + [eventDate]
      ensures lastAssignedDates == old(lastAssignedDates)[role := Some(eventDate)]
      ensures roleAssignedDates == old(roleAssignedDates)[role := old(roleAssignedDates)[role] + [eventDate]]
      ensures View() == Assigned(old(View()), eventDate, role)
      ensures Valid()
    {
      AssignedKeepsHistoryConsistent(View(), eventDate, role);
      assignedDates := assignedDates + [eventDate];
      lastAssignedDates := lastAssignedDates[role := Some(eventDate)];
      roleAssignedDates := roleAssignedDates[role := roleAssignedDates[role] + [eventDate]];
    }
  }
}
