/** One service date: its team, its preachers and one slot per role holding the assignee's name. */
module Events {
  import opened Roles
  import opened Wrappers
  import opened Preachers
  import opened People
  import opened Rules

  /** The result of trying to fill a slot: filled, or refused because the slot already holds
      a name (the source raises an error in that case and changes nothing). */
  datatype AssignOutcome = Filled | AlreadyAssigned(role: Role)

  /** No name fills two different slots. */
  predicate SlotsNoNameTwice(slots: map<Role, Option<string>>) {
    forall r1, r2 :: r1 in slots && r2 in slots && r1 != r2 && slots[r1].Some? ==> slots[r1] != slots[r2]
  }

  /** The first preacher whose dates include `date`, or None. */
  function PreacherOn(preachers: seq<Preacher>, date: int): (r: Option<Preacher>)
    ensures r.None? <==> forall i :: 0 <= i < |preachers| ==> date !in preachers[i].dates
    ensures r.Some? ==>
      date in r.value.dates &&
      exists i :: 0 <= i < |preachers| && preachers[i] == r.value &&
                  forall j :: 0 <= j < i ==> date !in preachers[j].dates
  {
    if preachers == [] then None
    else if date in preachers[0].dates then Some(preachers[0])
    else
      var rest := PreacherOn(preachers[1..], date);
      assert rest.Some? ==> exists i :: (0 <= i < |preachers| && preachers[i] == rest.value &&
                                         forall j :: 0 <= j < i ==> date !in preachers[j].dates) by {
        if rest.Some? {
          var k :| 0 <= k < |preachers[1..]| && preachers[1..][k] == rest.value &&
                   forall j :: 0 <= j < k ==> date !in preachers[1..][j].dates;
          assert preachers[k + 1] == rest.value;
        }
      }
      rest
  }

  /** The roles of `order` whose slot is filled (when `filled`) or empty (otherwise), kept in
      the order of `order`. */
  function RolesWhere(order: seq<Role>, slots: map<Role, Option<string>>, filled: bool): (r: seq<Role>)
    requires forall x: Role :: x in slots
    requires forall i, j :: 0 <= i < j < |order| ==> SchedulePos(order[i]) < SchedulePos(order[j])
    ensures forall x :: x in r <==> x in order && slots[x].Some? == filled
    ensures forall i, j :: 0 <= i < j < |r| ==> SchedulePos(r[i]) < SchedulePos(r[j])
    ensures |r| <= |order|
  {
    if order == [] then []
    else
      SortedTail(order);
      var rest := RolesWhere(order[1..], slots, filled);
      if slots[order[0]].Some? == filled then
        SortedCons(order[0], rest);
        [order[0]] + rest
      else rest
  }

  /** The tail of a list in schedule order is in schedule order and follows its head. */
  lemma SortedTail(order: seq<Role>)
    requires order != []
    requires forall i, j :: 0 <= i < j < |order| ==> SchedulePos(order[i]) < SchedulePos(order[j])
    ensures forall i, j :: 0 <= i < j < |order[1..]| ==> SchedulePos(order[1..][i]) < SchedulePos(order[1..][j])
    ensures forall x :: x in order[1..] ==> SchedulePos(order[0]) < SchedulePos(x)
  {
    forall x | x in order[1..] ensures SchedulePos(order[0]) < SchedulePos(x) {
      var k :| 0 <= k < |order[1..]| && order[1..][k] == x;
      assert order[k + 1] == x;
    }
  }

  /** A role placed before a list in schedule order whose roles all follow it keeps the order. */
  lemma SortedCons(h: Role, rest: seq<Role>)
    requires forall i, j :: 0 <= i < j < |rest| ==> SchedulePos(rest[i]) < SchedulePos(rest[j])
    requires forall x :: x in rest ==> SchedulePos(h) < SchedulePos(x)
    ensures forall i, j :: 0 <= i < j < |[h] + rest| ==> SchedulePos(([h] + rest)[i]) < SchedulePos(([h] + rest)[j])
    ensures forall x :: x in [h] + rest <==> x == h || x in rest
  {
    forall i, j | 0 <= i < j < |[h] + rest| ensures SchedulePos(([h] + rest)[i]) < SchedulePos(([h] + rest)[j]) {
      assert ([h] + rest)[j] == rest[j - 1];
      if i > 0 { assert ([h] + rest)[i] == rest[i - 1]; }
    }
  }

  /** The filled and the empty roles of a list together are the whole list. */
  lemma {:induction false} RolesWherePartition(order: seq<Role>, slots: map<Role, Option<string>>)
    requires forall x: Role :: x in slots
    requires forall i, j :: 0 <= i < j < |order| ==> SchedulePos(order[i]) < SchedulePos(order[j])
    ensures |RolesWhere(order, slots, true)| + |RolesWhere(order, slots, false)| == |order|
  {
    if order != [] {
      RolesWherePartition(order[1..], slots);
    }
  }

  /** Some member of `members` is called `n`. */
  predicate IsMemberName(members: seq<Person>, n: string) {
    exists i :: 0 <= i < |members| && members[i].name == n
  }

  /** A name belongs to a non-empty list iff it is the head's or belongs to the tail. */
  lemma MemberNameSplit(members: seq<Person>, n: string)
    requires members != []
    ensures IsMemberName(members, n) <==> members[0].name == n || IsMemberName(members[1..], n)
  {
    if IsMemberName(members, n) {
      var i :| 0 <= i < |members| && members[i].name == n;
      if i > 0 { assert members[1..][i - 1].name == n; }
    }
    if IsMemberName(members[1..], n) {
      var i :| 0 <= i < |members[1..]| && members[1..][i].name == n;
      assert members[i + 1].name == n;
    }
  }

  /** The names of the members of `members` that no slot holds, in member order. */
  function UnheldNames(members: seq<Person>, slots: map<Role, Option<string>>): (r: seq<string>)
    ensures forall n :: n in r <==> IsMemberName(members, n) && Some(n) !in slots.Values
    ensures |r| <= |members|
  {
    if members == [] then []
    else
      var rest := UnheldNames(members[1..], slots);
      assert forall n :: IsMemberName(members, n) <==> members[0].name == n || IsMemberName(members[1..], n) by {
        forall n ensures IsMemberName(members, n) <==> members[0].name == n || IsMemberName(members[1..], n) {
          MemberNameSplit(members, n);
        }
      }
      if Some(members[0].name) !in slots.Values then [members[0].name] + rest else rest
  }

  /** UnheldNames keeps the members' order and looks at each member on its own: the names for
      two lists one after the other are the names for the first followed by those for the
      second, and a single member contributes its name exactly when no slot holds it. */
  lemma {:induction false} UnheldNamesAppend(a: seq<Person>, b: seq<Person>, slots: map<Role, Option<string>>)
    ensures UnheldNames(a + b, slots) == UnheldNames(a, slots) + UnheldNames(b, slots)
    ensures |a| == 1 ==>
      UnheldNames(a, slots) == if Some(a[0].name) !in slots.Values then [a[0].name] else []
    decreases |a|
  {
    if a == [] {
      assert a + b == b;
    } else {
      assert (a + b)[0] == a[0] && (a + b)[1..] == a[1..] + b;
      UnheldNamesAppend(a[1..], b, slots);
    }
  }

  /** Every role occurs in the schedule order, which is strictly increasing in SchedulePos. */
  lemma ScheduleOrderSorted()
    ensures forall i, j :: 0 <= i < j < |ScheduleOrder()| ==> SchedulePos(ScheduleOrder()[i]) < SchedulePos(ScheduleOrder()[j])
    ensures forall r: Role :: r in ScheduleOrder()
  {
    ScheduleOrderIsPermutation();
  }

  class Event {
    const date: int
    const team: seq<Person>
    const preachers: seq<Preacher>
    var slots: map<Role, Option<string>>

    /** Every role has a slot. */
    ghost predicate Valid()
      reads this
    {
      forall r: Role :: r in slots
    }

    /** A new event has an empty slot for every role. */
    constructor(date: int, team: seq<Person>, preachers: seq<Preacher>)
      ensures this.date == date && this.team == team && this.preachers == preachers
      ensures Valid() && forall r: Role :: slots[r] == None
    {
      this.date := date;
      this.team := team;
      this.preachers := preachers;
      slots := map r | r in PriorityOrder :: None;
      PriorityOrderIsEnumeration();
    }

    /** Fills the slot of `role` with the person's name and records the assignment in the
        person's history. A slot that already holds a name is refused and nothing changes. */
    method AssignRole(role: Role, person: Person) returns (outcome: AssignOutcome)
      requires Valid()
      requires slots[role].None? ==> role in person.roles && person.Valid()
      modifies this, person
      ensures Valid()
      ensures old(slots[role]).Some? ==>
        outcome == AlreadyAssigned(role) && slots == old(slots) && person.View() == old(person.View())
      ensures old(slots[role]).None? ==>
        outcome == Filled && slots == old(slots)[role := Some(person.name)] &&
        person.View() == Assigned(old(person.View()), date, role) && person.Valid()
    {
      if slots[role].Some? {
        return AlreadyAssigned(role);
      }
      slots := slots[role := Some(person.name)];
      person.AssignEvent(date, role);
      return Filled;
    }

    /** The filled roles, in schedule order. */
    function AssignedRoles(): (r: seq<Role>)
      requires Valid()
      reads this
      ensures forall x :: x in r <==> slots[x].Some?
      ensures forall i, j :: 0 <= i < j < |r| ==> SchedulePos(r[i]) < SchedulePos(r[j])
    {
      ScheduleOrderSorted();
      RolesWhere(ScheduleOrder(), slots, true)
    }

    /** The empty roles, in schedule order. */
    function UnassignedRoles(): (r: seq<Role>)
      requires Valid()
      reads this
      ensures forall x :: x in r <==> slots[x].None?
      ensures forall i, j :: 0 <= i < j < |r| ==> SchedulePos(r[i]) < SchedulePos(r[j])
    {
      ScheduleOrderSorted();
      RolesWhere(ScheduleOrder(), slots, false)
    }

    /** Filled and empty roles partition the twelve roles. */
    lemma RolesPartition()
      requires Valid()
      ensures |AssignedRoles()| + |UnassignedRoles()| == 12
      ensures forall x :: x in AssignedRoles() <==> x !in UnassignedRoles()
    {
      ScheduleOrderSorted();
      RolesWherePartition(ScheduleOrder(), slots);
    }

    /** The names of the team members who hold no slot, in team order. */
    function UnassignedNames(): (r: seq<string>)
      reads this
      ensures forall n :: n in r <==>
        IsMemberName(team, n) && forall x :: x in slots ==> slots[x] != Some(n)
      ensures |r| <= |team|
    {
      UnheldNames(team, slots)
    }

    /** The first team member with the given name; None for no name or no such member. */
    function PersonByName(name: Option<string>): (r: Option<Person>)
      ensures name.None? ==> r.None?
      ensures name.Some? ==> r == FirstNamed(team, name.value)
      ensures r.Some? ==> r.value in team && Some(r.value.name) == name
    {
      if name.None? then None else FirstNamed(team, name.value)
    }

    /** The preacher of the event date: the first listed preacher whose dates include it. */
    function AssignedPreacher(): (r: Option<Preacher>)
      ensures r.None? <==> forall i :: 0 <= i < |preachers| ==> date !in preachers[i].dates
      ensures r.Some? ==> r.value in preachers && date in r.value.dates
    {
      PreacherOn(preachers, date)
    }

    /** The fallback check for an empty slot: not on leave, capable, not blocked out and not
        preaching on the event date. Capability is checked by role value, which matches
        holding the role itself. */
    function IsAssignableIfNeeded(role: Role, person: Person): (r: bool)
      ensures r <==>
        !person.onLeave && role in person.roles && date !in person.blockoutDates && date !in person.preachingDates
    {
      ValueMembership(role, person.roles);
      !person.onLeave && Value(role) in Values(person.roles) &&
      date !in person.blockoutDates && date !in person.preachingDates
    }

    /** The fallback check is exactly the four availability rules that ignore history. */
    lemma AssignableIfNeededIsAvailability(role: Role, person: Person, preacher: Option<Preacher>)
      ensures IsAssignableIfNeeded(role, person) <==>
        Holds(RoleCapability, person.View(), role, date, preacher) &&
        Holds(OnLeave, person.View(), role, date, preacher) &&
        Holds(BlockoutDate, person.View(), role, date, preacher) &&
        Holds(PreachingDate, person.View(), role, date, preacher)
    {
    }

    /** No name fills two different slots of this event. */
    predicate NoNameTwice()
      reads this
    {
      SlotsNoNameTwice(slots)
    }
  }
}
