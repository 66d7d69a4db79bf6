/** Evaluates an ordered list of rules against a person, stopping at the first rule that fails. */
module Eligibility {
  import opened Roles
  import opened Wrappers
  import opened Preachers
  import opened People
  import opened Rules

  /** Every rule of `rules` lets `v` take `role` on `date`. */
  predicate AllRulesPass(rules: seq<Rule>, v: PersonView, role: Role, date: int, preacher: Option<Preacher>) {
    forall i :: 0 <= i < |rules| ==> Holds(rules[i], v, role, date, preacher)
  }

  /** Passing is a property of the set of rules: `v` passes exactly when every rule listed
      holds, and one failing rule anywhere in the list is enough to refuse. */
  lemma AllRulesPassMembership(rules: seq<Rule>, v: PersonView, role: Role, date: int, preacher: Option<Preacher>)
    ensures AllRulesPass(rules, v, role, date, preacher) <==>
      forall rule :: rule in rules ==> Holds(rule, v, role, date, preacher)
    ensures !AllRulesPass(rules, v, role, date, preacher) <==>
      exists rule :: rule in rules && !Holds(rule, v, role, date, preacher)
  {
  }

  /** Rules are a conjunction: the order of evaluation never changes the verdict, only how many
      rules are looked at. */
  lemma {:induction false} AllRulesPassAppend(a: seq<Rule>, b: seq<Rule>, v: PersonView, role: Role, date: int,
                                              preacher: Option<Preacher>)
    ensures AllRulesPass(a + b, v, role, date, preacher) <==>
      AllRulesPass(a, v, role, date, preacher) && AllRulesPass(b, v, role, date, preacher)
    ensures AllRulesPass(a + b, v, role, date, preacher) <==> AllRulesPass(b + a, v, role, date, preacher)
  {
    if AllRulesPass(a, v, role, date, preacher) && AllRulesPass(b, v, role, date, preacher) {
      forall i | 0 <= i < |a + b| ensures Holds((a + b)[i], v, role, date, preacher) {
        if i < |a| { assert (a + b)[i] == a[i]; } else { assert (a + b)[i] == b[i - |a|]; }
      }
      forall i | 0 <= i < |b + a| ensures Holds((b + a)[i], v, role, date, preacher) {
        if i < |b| { assert (b + a)[i] == b[i]; } else { assert (b + a)[i] == a[i - |b|]; }
      }
    }
    if AllRulesPass(a + b, v, role, date, preacher) {
      forall i | 0 <= i < |a| ensures Holds(a[i], v, role, date, preacher) { assert (a + b)[i] == a[i]; }
      forall i | 0 <= i < |b| ensures Holds(b[i], v, role, date, preacher) { assert (a + b)[|a| + i] == b[i]; }
    }
    if AllRulesPass(b + a, v, role, date, preacher) {
      forall i | 0 <= i < |a| ensures Holds(a[i], v, role, date, preacher) { assert (b + a)[|b| + i] == a[i]; }
      forall i | 0 <= i < |b| ensures Holds(b[i], v, role, date, preacher) { assert (b + a)[i] == b[i]; }
    }
  }

  class EligibilityChecker {
    const rules: seq<Rule>

    constructor(rules: seq<Rule>)
      ensures this.rules == rules
    {
      this.rules := rules;
    }

    /** Evaluates the rules in order and stops at the first failure. `evaluated` is the number
        of rules looked at: all of them when the person is eligible, otherwise up to and
        including the first rule that fails (the rules after it are never consulted). */
    method IsEligible(person: Person, role: Role, eventDate: int, preacher: Option<Preacher>)
      returns (eligible: bool, ghost evaluated: nat)
      ensures eligible <==> AllRulesPass(rules, person.View(), role, eventDate, preacher)
      ensures evaluated <= |rules|
      ensures eligible ==> evaluated == |rules|
      ensures !eligible ==>
        0 < evaluated && !Holds(rules[evaluated - 1], person.View(), role, eventDate, preacher) &&
        forall i :: 0 <= i < evaluated - 1 ==> Holds(rules[i], person.View(), role, eventDate, preacher)
    {
      var v := person.View();
      var i := 0;
      while i < |rules|
        invariant 0 <= i <= |rules|
        invariant forall j :: 0 <= j < i ==> Holds(rules[j], v, role, eventDate, preacher)
      {
        if !Holds(rules[i], v, role, eventDate, preacher) {
          return false, i + 1;
        }
        i := i + 1;
      }
      return true, |rules|;
    }
  }
}
