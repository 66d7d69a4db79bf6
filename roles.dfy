/** The closed enumeration of duty slots in an event, with its two orderings:
    the priority order (declaration order, used when assigning) and the
    schedule order (used for display only). */
module Roles {

  datatype Role =
    | WorshipLeader
    | Emcee
    | Acoustic
    | Keys
    | Drums
    | Bass
    | Audio
    | Live
    | Lyrics
    | SundaySchoolTeacher
    | Backup
    | Electric

  /** The string value each role carries (roles are string-valued enum members). */
  function Value(r: Role): string {
    match r
    case WorshipLeader => "WORSHIP LEADER"
    case Emcee => "EMCEE"
    case Acoustic => "ACOUSTIC GUITAR"
    case Keys => "KEYS"
    case Drums => "DRUMS"
    case Bass => "BASS"
    case Audio => "AUDIO"
    case Live => "LIVE"
    case Lyrics => "LYRICS"
    case SundaySchoolTeacher => "SUNDAY SCHOOL TEACHER"
    case Backup => "BACKUP"
    case Electric => "ELECTRIC GUITAR"
  }

  /** The declaration order of the enumeration, which is the priority order. */
  const PriorityOrder: seq<Role> :=
    [WorshipLeader, Emcee, Acoustic, Keys, Drums, Bass, Audio, Live, Lyrics,
     SundaySchoolTeacher, Backup, Electric]

  /** No role occurs twice in `rs`. */
  predicate NoDuplicates(rs: seq<Role>) {
    forall i, j :: 0 <= i < j < |rs| ==> rs[i] != rs[j]
  }

  /** The display order of roles in a schedule. */
  function ScheduleOrder(): (order: seq<Role>)
    ensures |order| == 12 && NoDuplicates(order)
    ensures order[0] == Emcee && order[1] == WorshipLeader && order[11] == SundaySchoolTeacher
  {
    [Emcee, WorshipLeader, Acoustic, Keys, Drums, Bass, Audio, Live, Lyrics,
     Backup, Electric, SundaySchoolTeacher]
  }

  /** The position of a role in the schedule (display) order. */
  function SchedulePos(r: Role): (pos: nat)
    ensures pos < 12 && ScheduleOrder()[pos] == r
  {
    match r
    case Emcee => 0
    case WorshipLeader => 1
    case Acoustic => 2
    case Keys => 3
    case Drums => 4
    case Bass => 5
    case Audio => 6
    case Live => 7
    case Lyrics => 8
    case Backup => 9
    case Electric => 10
    case SundaySchoolTeacher => 11
  }

  /** There are exactly twelve roles; the priority order lists each once, starting with the
      worship leader and ending with the electric guitar. */
  lemma PriorityOrderIsEnumeration()
    ensures |PriorityOrder| == 12 && NoDuplicates(PriorityOrder)
    ensures forall r: Role :: r in PriorityOrder
    ensures PriorityOrder[0] == WorshipLeader && PriorityOrder[11] == Electric
  {
    forall r: Role ensures r in PriorityOrder {
      match r {
        case WorshipLeader => assert PriorityOrder[0] == r;
        case Emcee => assert PriorityOrder[1] == r;
        case Acoustic => assert PriorityOrder[2] == r;
        case Keys => assert PriorityOrder[3] == r;
        case Drums => assert PriorityOrder[4] == r;
        case Bass => assert PriorityOrder[5] == r;
        case Audio => assert PriorityOrder[6] == r;
        case Live => assert PriorityOrder[7] == r;
        case Lyrics => assert PriorityOrder[8] == r;
        case SundaySchoolTeacher => assert PriorityOrder[9] == r;
        case Backup => assert PriorityOrder[10] == r;
        case Electric => assert PriorityOrder[11] == r;
      }
    }
  }

  /** The schedule order lists every role exactly once (with the priority order, both are
      duplicate-free lists of all twelve roles, so each is a permutation of the other), its
      positions are given by SchedulePos, and it differs from the priority order. */
  lemma ScheduleOrderIsPermutation()
    ensures forall r: Role :: r in ScheduleOrder()
    ensures forall i :: 0 <= i < 12 ==> SchedulePos(ScheduleOrder()[i]) == i
    ensures ScheduleOrder() != PriorityOrder
  {
    forall r: Role ensures r in ScheduleOrder() {
      assert ScheduleOrder()[SchedulePos(r)] == r;
    }
    forall i | 0 <= i < 12 ensures SchedulePos(ScheduleOrder()[i]) == i {
      var order := ScheduleOrder();
      assert order[SchedulePos(order[i])] == order[i];
    }
    assert ScheduleOrder()[0] != PriorityOrder[0];
  }

  /** Role values are pairwise distinct, so comparing values is comparing roles. */
  lemma ValueInjective(a: Role, b: Role)
    ensures Value(a) == Value(b) <==> a == b
  {
  }

  /** The values of a list of roles, in order. */
  function Values(rs: seq<Role>): (vs: seq<string>)
    ensures |vs| == |rs| && forall i :: 0 <= i < |rs| ==> vs[i] == Value(rs[i])
  {
    if rs == [] then [] else [Value(rs[0])] + Values(rs[1..])
  }

  /** A role's value occurs among the values of `rs` exactly when the role occurs in `rs`. */
  lemma ValueMembership(r: Role, rs: seq<Role>)
    ensures Value(r) in Values(rs) <==> r in rs
  {
    if Value(r) in Values(rs) {
      var i :| 0 <= i < |rs| && Values(rs)[i] == Value(r);
      ValueInjective(r, rs[i]);
    }
  }
}
