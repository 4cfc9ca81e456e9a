/**
 Groups, their members and invitations (geonode/groups/models.py and the guards of geonode/groups/views.py).
 Membership is kept twice: as GroupMember rows and in the Django group named after the slug.
 */
module Groups {
  import opened Lists

  type User = nat

  /** The placeholder account for visitors; it cannot log in. */
  const ANONYMOUS: User := 0

  datatype Role = Manager | Member

  datatype Access = Public | PublicInvite | Private

  datatype InvitationState = Sent | Accepted | Declined

  datatype Membership = Membership(group: string, user: User, role: Role)

  datatype Invitation = Invitation(token: nat, group: string, email: string, user: Option<User>, fromUser: User,
      role: Role, state: InvitationState)

  /** The tables: group profiles by slug, membership rows, Django groups with their users, and invitations. */
  datatype Site = Site(
    profiles: map<string, Access>,
    members: seq<Membership>,
    groups: map<string, set<User>>,
    invitations: seq<Invitation>,
    nextToken: nat)

  predicate IsMember(members: seq<Membership>, group: string, user: User) {
    exists m :: m in members && m.group == group && m.user == user
  }

  predicate IsRole(members: seq<Membership>, group: string, user: User, role: Role) {
    Membership(group, user, role) in members
  }

  // ---- The model's operations ----

  /** join: None is the ValueError for the anonymous user and for members. Both records are written. */
  function JoinGroup(s: Site, group: string, user: User, role: Role): Option<Site> {
    if user == ANONYMOUS || IsMember(s.members, group, user) then None
    else
      var users := if group in s.groups then s.groups[group] else {};
      Some(s.(members := s.members + [Membership(group, user, role)], groups := s.groups[group := users + {user}]))
  }

  /** Users join one after the other; the first failure ends the step, earlier joins stay. */
  function JoinAll(s: Site, group: string, users: seq<User>, role: Role): Site
    decreases |users|
  {
    if users == [] then s
    else
      match JoinGroup(s, group, users[0], role)
      case None => s
      case Some(next) => JoinAll(next, group, users[1..], role)
  }

  predicate IsInvited(invitations: seq<Invitation>, group: string, email: string) {
    exists inv :: inv in invitations && inv.group == group && inv.email == email
  }

  /** An address is invited once per group; inviting it again re-uses the invitation as it is. */
  function InviteOne(s: Site, group: string, email: string, from: User, role: Role): Site {
    if IsInvited(s.invitations, group, email) then s
    else
      s.(invitations := s.invitations
          + [Invitation(s.nextToken, group, email, None, from, role, Sent)], nextToken := s.nextToken + 1)
  }

  function InviteAll(s: Site, group: string, emails: seq<string>, from: User, role: Role): Site {
    if emails == [] then s
    else InviteOne(InviteAll(s, group, emails[..|emails| - 1], from, role), group, emails[|emails| - 1], from, role)
  }

  function SetState(
      invitations: seq<Invitation>, token: nat, user: Option<User>, state: InvitationState): seq<Invitation> {
    seq(|invitations|, i requires 0 <= i < |invitations| =>
      if invitations[i].token != token then invitations[i]
      else invitations[i].(state := state, user := if user.Some? then user else invitations[i].user))
  }

  /** Deleting the Django group takes the profile, its members and its invitations along. */
  function DeleteGroup(s: Site, group: string): Site {
    if group == "anonymous" then s // a signal handler refuses
    else
      s.(profiles := s.profiles - {group}, groups := s.groups - {group},
         members := Filter(s.members, (m: Membership) => m.group != group),
         invitations := Filter(s.invitations, (inv: Invitation) => inv.group != group))
  }

  /** The rows of one user in one group. */
  function RowsOf(members: seq<Membership>, group: string, user: User): seq<Membership> {
    Filter(members, (m: Membership) => m.group == group && m.user == user)
  }

  function WithoutRows(members: seq<Membership>, group: string, user: User): seq<Membership> {
    Filter(members, (m: Membership) => !(m.group == group && m.user == user))
  }

  // ---- The steps users take ----

  datatype Step =
    | Create(actor: User, group: string, access: Access)
    | Join(actor: User, group: string)
    | AddMembers(actor: User, group: string, users: seq<User>, role: Role)
    | RemoveMember(actor: User, group: string, user: User)
    | Invite(actor: User, group: string, emails: seq<string>, role: Role)
    | Accept(actor: User, token: nat)
    | Decline(actor: User, token: nat)
    | Remove(actor: User, group: string)
    | Enrol(actor: User, group: string, wanted: Option<Access>) // by the system: a granted request, a directory login

  /** The invitation behind a link, if it was sent to the user's address. */
  function InvitationFor(s: Site, email: User -> string, actor: User, token: nat): Option<Invitation> {
    var found := Filter(s.invitations, (inv: Invitation) => inv.token == token && inv.email == email(actor));
    if found == [] then None else Some(found[0])
  }

  /** A new profile; a Django group of its name is taken over. */
  function Created(s: Site, group: string, access: Access): Site {
    var users := if group in s.groups then s.groups[group] else {};
    s.(profiles := s.profiles[group := access], groups := s.groups[group := users])
  }

  /** The group of the name, made if it is missing. */
  function Ensured(s: Site, group: string, wanted: Option<Access>): Site {
    if group in s.profiles then s else Created(s, group, wanted.GetOr(Public))
  }

  /** A group of that name with another access than the wanted one is an error. */
  predicate Mismatch(s: Site, group: string, wanted: Option<Access>) {
    group in s.profiles && wanted.Some? && s.profiles[group] != wanted.value
  }

  /** One step of a logged-in user; a step its guard refuses changes nothing. */
  function Apply(s: Site, email: User -> string, step: Step): Site {
    if step.actor == ANONYMOUS then s
    else
      match step
      case Create(actor, group, access) =>
        if group in s.profiles then s
        else
          JoinAll(Created(s, group, access), group, [actor], Manager)
      case Join(actor, group) =>
        if group !in s.profiles || s.profiles[group] == Private || IsMember(s.members, group, actor) then s
        else JoinAll(s, group, [actor], Member)
      case AddMembers(actor, group, users, role) =>
        if group !in s.profiles || !IsRole(s.members, group, actor, Manager) then s else JoinAll(s, group, users, role)
      case RemoveMember(actor, group, user) =>
        if group !in s.profiles || !IsRole(s.members, group, actor, Manager)
            || |RowsOf(s.members, group, user)| != 1 then s
        else
          var users := if group in s.groups then s.groups[group] else {};
          s.(members := WithoutRows(s.members, group, user), groups := s.groups[group := users - {user}])
      case Invite(actor, group, emails, role) =>
        if group !in s.profiles || !IsRole(s.members, group, actor, Manager) then s
            else InviteAll(s, group, emails, actor, role)
      case Accept(actor, token) =>
        (match InvitationFor(s, email, actor, token)
         case None => s
         case Some(inv) =>
           match JoinGroup(s, inv.group, actor, inv.role)
           case None => s
           case Some(next) => next.(invitations := SetState(s.invitations, token, Some(actor), Accepted)))
      case Decline(actor, token) =>
        if InvitationFor(s, email, actor, token).None? then s
        else s.(invitations := SetState(s.invitations, token, None, Declined))
      case Remove(actor, group) =>
        if group !in s.profiles || !IsRole(s.members, group, actor, Manager) then s else DeleteGroup(s, group)
      case Enrol(actor, group, wanted) =>
        if Mismatch(s, group, wanted) then s else JoinAll(Ensured(s, group, wanted), group, [actor], Member)
  }

  // ---- What every step keeps ----

  ghost predicate OneRowEach(members: seq<Membership>) {
    forall i, j :: 0 <= i < j < |members| ==>
        !(members[i].group == members[j].group && members[i].user == members[j].user)
  }

  predicate Clash(a: Invitation, b: Invitation) {
    a.token == b.token || (a.group == b.group && a.email == b.email)
  }

  ghost predicate OneInvitationEach(invitations: seq<Invitation>) {
    forall i, j :: 0 <= i < j < |invitations| ==> !Clash(invitations[i], invitations[j])
  }

  /** The two membership records of a group say the same. */
  ghost predicate RecordsAgree(s: Site, group: string) {
    group in s.groups && forall u: User :: u in s.groups[group] <==> IsMember(s.members, group, u)
  }

  /** No row is without a group profile. */
  ghost predicate RowsHaveProfiles(s: Site) {
    && (forall m :: m in s.members ==> m.group in s.profiles)
    && (forall inv :: inv in s.invitations ==> inv.group in s.profiles)
  }

  /** The rows are in order, whatever the Django groups say. */
  ghost predicate Orderly(s: Site) {
    && RowsHaveProfiles(s) && OneRowEach(s.members) && OneInvitationEach(s.invitations)
    && forall inv :: inv in s.invitations ==> inv.token < s.nextToken
  }

  ghost predicate Agree(s: Site) {
    Orderly(s) && forall g :: g in s.profiles ==> RecordsAgree(s, g)
  }

  lemma JoinKeepsAgreement(s: Site, group: string, user: User, role: Role)
    requires Agree(s) && group in s.profiles && JoinGroup(s, group, user, role).Some?
    ensures Agree(JoinGroup(s, group, user, role).value)
  {
    var after := JoinGroup(s, group, user, role).value;
    assert forall i :: 0 <= i < |s.members| ==> s.members[i] in s.members;
    assert RecordsAgree(s, group);
    forall g | g in after.profiles ensures RecordsAgree(after, g) {
      assert RecordsAgree(s, g);
      forall u: User ensures IsMember(after.members, g, u) <==> IsMember(s.members, g, u) || (g == group && u == user) {
        MemberSnoc(s.members, Membership(group, user, role), g, u);
      }
    }
  }

  lemma MemberSnoc(members: seq<Membership>, m: Membership, g: string, u: User)
    ensures IsMember(members + [m], g, u) <==> IsMember(members, g, u) || (m.group == g && m.user == u)
  {
    assert m in members + [m] && forall x :: x in members ==> x in members + [m];
  }

  lemma {:induction false} JoinAllKeepsAgreement(s: Site, group: string, users: seq<User>, role: Role)
    requires Agree(s) && group in s.profiles
    ensures Agree(JoinAll(s, group, users, role)) && JoinAll(s, group, users, role).profiles == s.profiles
    ensures JoinAll(s, group, users, role).groups.Keys == s.groups.Keys
    decreases |users|
  {
    if users != [] {
      assert RecordsAgree(s, group);
      var next := JoinGroup(s, group, users[0], role);
      if next.Some? {
        JoinKeepsAgreement(s, group, users[0], role);
        JoinAllKeepsAgreement(next.value, group, users[1..], role);
      }
    }
  }

  lemma {:induction false} FilterOneRow(members: seq<Membership>, keep: Membership -> bool)
    requires OneRowEach(members)
    ensures OneRowEach(Filter(members, keep))
  {
    if members != [] {
      FilterOneRow(members[1..], keep);
      var rest := Filter(members[1..], keep);
      assert forall i :: 0 <= i < |rest| ==> rest[i] in rest;
    }
  }

  lemma {:induction false} FilterOneInvitation(invitations: seq<Invitation>, keep: Invitation -> bool)
    requires OneInvitationEach(invitations)
    ensures OneInvitationEach(Filter(invitations, keep))
  {
    if invitations != [] {
      FilterOneInvitation(invitations[1..], keep);
      var rest := Filter(invitations[1..], keep);
      assert forall i :: 0 <= i < |rest| ==> rest[i] in rest;
    }
  }

  lemma {:induction false} InviteAllKeepsAgreement(s: Site, group: string, emails: seq<string>, from: User, role: Role)
    requires Agree(s) && group in s.profiles
    ensures var after := InviteAll(s, group, emails, from, role);
            Agree(after) && after.profiles == s.profiles && after.groups == s.groups && after.members == s.members
  {
    if emails != [] {
      InviteAllKeepsAgreement(s, group, emails[..|emails| - 1], from, role);
    }
  }

  lemma RemoveMemberKeepsAgreement(s: Site, group: string, user: User)
    requires Agree(s) && group in s.profiles
    ensures Agree(s.(members := WithoutRows(s.members, group, user), groups := s.groups[group := (if group in s.groups
        then s.groups[group] else {}) - {user}]))
  {
    FilterOneRow(s.members, (m: Membership) => !(m.group == group && m.user == user));
    var after := s.(members := WithoutRows(s.members, group, user), groups := s.groups[group := (if group in s.groups
        then s.groups[group] else {}) - {user}]);
    assert RecordsAgree(s, group);
    forall g | g in after.profiles ensures RecordsAgree(after, g) {
      assert RecordsAgree(s, g);
      forall u: User ensures IsMember(after.members, g, u)
          <==> IsMember(s.members, g, u) && !(g == group && u == user) {
        if IsMember(s.members, g, u) && !(g == group && u == user) {
          var m :| m in s.members && m.group == g && m.user == u;
          assert m in after.members;
        }
      }
    }
  }

  lemma DeleteGroupKeepsAgreement(s: Site, group: string)
    requires Agree(s)
    ensures Agree(DeleteGroup(s, group))
  {
    if group != "anonymous" {
      FilterOneRow(s.members, (m: Membership) => m.group != group);
      FilterOneInvitation(s.invitations, (inv: Invitation) => inv.group != group);
      var after := DeleteGroup(s, group);
      forall g | g in after.profiles ensures RecordsAgree(after, g) {
        assert RecordsAgree(s, g);
        forall u: User ensures IsMember(after.members, g, u) <==> IsMember(s.members, g, u) {
          if IsMember(s.members, g, u) {
            var m :| m in s.members && m.group == g && m.user == u;
            assert m in after.members;
          }
        }
      }
    }
  }

  /**
   A new group starts with agreeing records exactly if no one but its first member is in a Django group of that
   name.
   */
  lemma CreatedAgreesExactly(s: Site, actor: User, group: string, access: Access, role: Role)
    requires Agree(s) && actor != ANONYMOUS && group !in s.profiles
    ensures Agree(JoinAll(Created(s, group, access), group, [actor], role))
        <==> group !in s.groups || s.groups[group] <= {actor}
  {
    var start := Created(s, group, access);
    assert forall u :: !IsMember(s.members, group, u);
    var after := JoinGroup(start, group, actor, role).value;
    assert JoinAll(start, group, [actor], role) == after by {
      assert [actor][1..] == [];
    }
    assert forall i :: 0 <= i < |s.members| ==> s.members[i] in s.members;
    forall g, u: User ensures IsMember(after.members, g, u)
        <==> IsMember(s.members, g, u) || (g == group && u == actor) {
      MemberSnoc(s.members, Membership(group, actor, role), g, u);
    }
    forall g | g in s.profiles ensures RecordsAgree(after, g) {
      assert RecordsAgree(s, g);
    }
    if group !in s.groups || s.groups[group] <= {actor} {
      assert RecordsAgree(after, group);
    } else {
      var u :| u in s.groups[group] && u != actor;
      assert u in after.groups[group] && !IsMember(after.members, group, u);
      assert !RecordsAgree(after, group);
    }
  }

  lemma CreateAgreesExactly(s: Site, email: User -> string, actor: User, group: string, access: Access)
    requires Agree(s) && actor != ANONYMOUS
    ensures Agree(Apply(s, email, Create(actor, group, access)))
       <==> group in s.profiles || group !in s.groups || s.groups[group] <= {actor}
  {
    if group !in s.profiles {
      CreatedAgreesExactly(s, actor, group, access, Manager);
    }
  }

  /** The concrete case: a profile named after the group that holds the anonymous user. */
  lemma ForeignGroupBreaksAgreement(email: User -> string)
    ensures Agree(Fresh(map["anonymous" := {ANONYMOUS}]))
    ensures !Agree(Apply(Fresh(map["anonymous" := {ANONYMOUS}]), email, Create(1, "anonymous", Public)))
  {
    CreateAgreesExactly(Fresh(map["anonymous" := {ANONYMOUS}]), email, 1, "anonymous", Public);
  }

  /** A step that creates no group, or one whose name no Django group of other users has. */
  predicate CreatesCleanly(s: Site, step: Step) {
    (step.Create? || step.Enrol?) && step.actor != ANONYMOUS ==>
      step.group in s.profiles || step.group !in s.groups || s.groups[step.group] <= {step.actor}
  }

  /** Every step keeps the agreement, if and only if it creates cleanly. */
  lemma StepAgreesExactly(s: Site, email: User -> string, step: Step)
    requires Agree(s)
    ensures Agree(Apply(s, email, step)) <==> CreatesCleanly(s, step)
  {
    if step.actor != ANONYMOUS {
      match step {
        case Create(actor, group, access) =>
          CreateAgreesExactly(s, email, actor, group, access);
        case Join(actor, group) =>
          if group in s.profiles {
            JoinAllKeepsAgreement(s, group, [actor], Member);
          }
        case AddMembers(actor, group, users, role) =>
          if group in s.profiles {
            JoinAllKeepsAgreement(s, group, users, role);
          }
        case RemoveMember(actor, group, user) =>
          if group in s.profiles {
            RemoveMemberKeepsAgreement(s, group, user);
          }
        case Invite(actor, group, emails, role) =>
          if group in s.profiles {
            InviteAllKeepsAgreement(s, group, emails, actor, role);
          }
        case Accept(actor, token) =>
          AcceptKeepsAgreement(s, email, actor, token);
        case Decline(actor, token) =>
        case Remove(actor, group) =>
          DeleteGroupKeepsAgreement(s, group);
        case Enrol(actor, group, wanted) =>
          if group in s.profiles {
            JoinAllKeepsAgreement(s, group, [actor], Member);
          } else {
            CreatedAgreesExactly(s, actor, group, wanted.GetOr(Public), Member);
          }
      }
    }
  }

  lemma AcceptKeepsAgreement(s: Site, email: User -> string, actor: User, token: nat)
    requires Agree(s) && actor != ANONYMOUS
    ensures Agree(Apply(s, email, Accept(actor, token)))
  {
    var found := InvitationFor(s, email, actor, token);
    if found.Some? {
      var inv := found.value;
      var next := JoinGroup(s, inv.group, actor, inv.role);
      if next.Some? {
        JoinKeepsAgreement(s, inv.group, actor, inv.role);
      }
    }
  }

  function After(s: Site, email: User -> string, run: seq<Step>): Site {
    if run == [] then s else Apply(After(s, email, run[..|run| - 1]), email, run[|run| - 1])
  }

  /** A site without group profiles; its Django groups have their own users. */
  function Fresh(foreign: map<string, set<User>>): Site {
    Site(map[], [], foreign, [], 0)
  }

  ghost predicate EverAgree(s: Site, email: User -> string, run: seq<Step>) {
    forall i :: 0 <= i <= |run| ==> Agree(After(s, email, run[..i]))
  }

  predicate AllCreateCleanly(s: Site, email: User -> string, run: seq<Step>) {
    forall i :: 0 <= i < |run| ==> CreatesCleanly(After(s, email, run[..i]), run[i])
  }

  lemma {:induction false} AgreeUpTo(s: Site, email: User -> string, run: seq<Step>, n: nat)
    requires Agree(s) && AllCreateCleanly(s, email, run) && n <= |run|
    ensures Agree(After(s, email, run[..n]))
  {
    if n > 0 {
      AgreeUpTo(s, email, run, n - 1);
      AfterSnoc(s, email, run, n - 1);
      StepAgreesExactly(After(s, email, run[..n - 1]), email, run[n - 1]);
    }
  }

  /**
   The two records of every group agree throughout a run, with one row per member and one invitation per address, if and
   only if every group is created cleanly at its turn.
   */
  lemma RunsAgreeExactly(s: Site, email: User -> string, run: seq<Step>)
    requires Agree(s)
    ensures EverAgree(s, email, run) <==> AllCreateCleanly(s, email, run)
  {
    if AllCreateCleanly(s, email, run) {
      forall i | 0 <= i <= |run| ensures Agree(After(s, email, run[..i])) {
        AgreeUpTo(s, email, run, i);
      }
    }
    if EverAgree(s, email, run) {
      forall i | 0 <= i < |run| ensures CreatesCleanly(After(s, email, run[..i]), run[i]) {
        assert Agree(After(s, email, run[..i])) && Agree(After(s, email, run[..i + 1]));
        AfterSnoc(s, email, run, i);
        StepAgreesExactly(After(s, email, run[..i]), email, run[i]);
      }
    }
  }

  // ---- Who is a member after a step ----

  /** The users up to position i can all join, one after the other. */
  predicate JoinableUpTo(s: Site, group: string, users: seq<User>, i: nat)
    requires i < |users|
  {
    forall j :: 0 <= j <= i ==>
        users[j] != ANONYMOUS && !IsMember(s.members, group, users[j]) && users[j] !in users[..j]
  }

  predicate Joins(s: Site, group: string, users: seq<User>, u: User) {
    exists i: nat :: i < |users| && users[i] == u && JoinableUpTo(s, group, users, i)
  }

  lemma {:induction false} JoinAllMembers(s: Site, group: string, users: seq<User>, role: Role, g: string, u: User)
    ensures IsMember(JoinAll(s, group, users, role).members, g, u)
        <==> IsMember(s.members, g, u) || (g == group && Joins(s, group, users, u))
    decreases |users|
  {
    if users != [] {
      var next := JoinGroup(s, group, users[0], role);
      if next.Some? {
        JoinAllMembers(next.value, group, users[1..], role, g, u);
        MemberSnoc(s.members, Membership(group, users[0], role), g, u);
      } else if i: nat :| i < |users| && users[i] == u && JoinableUpTo(s, group, users, i) {
        assert false;
      }
    }
  }

  /** The step makes u a member of g, or finds that it is one. */
  predicate Enters(s: Site, email: User -> string, step: Step, g: string, u: User) {
    match step
    case Create(actor, group, _) => g == group && u == actor && group !in s.profiles
    case Join(actor, group) => g == group && u == actor && group in s.profiles && s.profiles[group] != Private
    case AddMembers(actor, group, users, _) => g == group && IsRole(s.members, group, actor, Manager)
        && Joins(s, group, users, u)
    case Accept(actor, token) => u == actor && exists inv ::
        inv in s.invitations && inv.token == token && inv.email == email(actor) && inv.group == g
    case Enrol(actor, group, wanted) => g == group && u == actor && !Mismatch(s, group, wanted)
    case _ => false
  }

  predicate Leaves(s: Site, step: Step, g: string, u: User) {
    match step
    case RemoveMember(actor, group, user) => g == group && u == user && IsRole(s.members, group, actor, Manager)
    case Remove(actor, group) => g == group && group != "anonymous" && IsRole(s.members, group, actor, Manager)
    case _ => false
  }

  lemma {:induction false} RowsOfCount(members: seq<Membership>, group: string, user: User)
    requires OneRowEach(members)
    ensures |RowsOf(members, group, user)| == if IsMember(members, group, user) then 1 else 0
  {
    if members != [] {
      var first, rest := members[0], members[1..];
      assert members == [first] + rest;
      RowsOfCount(rest, group, user);
      if first.group == group && first.user == user {
        assert first in members && !IsMember(rest, group, user);
      } else if IsMember(rest, group, user) {
        var m :| m in rest && m.group == group && m.user == user;
        assert m in members;
      }
    }
  }

  lemma OneToken(s: Site, email: User -> string, actor: User, token: nat, inv: Invitation)
    requires Orderly(s) && inv in s.invitations && inv.token == token && inv.email == email(actor)
    ensures InvitationFor(s, email, actor, token) == Some(inv)
  {
    SameToken(s.invitations, inv);
    var found := Filter(s.invitations, (other: Invitation) => other.token == token && other.email == email(actor));
    assert inv in found && found[0] in found;
  }

  /** After a step exactly those are members who were and did not leave, and those who entered. */
  lemma MembersAfterExactly(s: Site, email: User -> string, step: Step, g: string, u: User)
    requires Orderly(s) && step.actor != ANONYMOUS
    ensures IsMember(Apply(s, email, step).members, g, u)
        <==> (IsMember(s.members, g, u) && !Leaves(s, step, g, u)) || Enters(s, email, step, g, u)
  {
    match step {
      case Create(actor, group, access) =>
        JoinAllMembers(Created(s, group, access), group, [actor], Manager, g, u);
        assert group !in s.profiles ==> JoinableUpTo(Created(s, group, access), group, [actor], 0);
      case Join(actor, group) =>
        JoinAllMembers(s, group, [actor], Member, g, u);
        assert !IsMember(s.members, group, actor) ==> JoinableUpTo(s, group, [actor], 0);
      case AddMembers(actor, group, users, role) =>
        JoinAllMembers(s, group, users, role, g, u);
      case RemoveMember(actor, group, user) =>
        RowsOfCount(s.members, group, user);
      case Invite(actor, group, emails, role) =>
        InviteAllFrame(s, group, emails, actor, role);
      case Accept(actor, token) =>
        AcceptMembers(s, email, actor, token, g, u);
      case Decline(actor, token) =>
      case Remove(actor, group) =>
      case Enrol(actor, group, wanted) =>
        JoinAllMembers(Ensured(s, group, wanted), group, [actor], Member, g, u);
        assert !IsMember(s.members, group, actor) ==> JoinableUpTo(Ensured(s, group, wanted), group, [actor], 0);
    }
  }

  lemma AcceptMembers(s: Site, email: User -> string, actor: User, token: nat, g: string, u: User)
    requires Orderly(s) && actor != ANONYMOUS
    ensures IsMember(Apply(s, email, Accept(actor, token)).members, g, u)
        <==> IsMember(s.members, g, u) || Enters(s, email, Accept(actor, token), g, u)
  {
    InvitationForSent(s, email, actor, token);
    if inv :| inv in s.invitations && inv.token == token && inv.email == email(actor) {
      OneToken(s, email, actor, token, inv);
      forall other | other in s.invitations && other.token == token
          && other.email == email(actor) ensures other == inv {
        OneToken(s, email, actor, token, other);
      }
      if !IsMember(s.members, inv.group, actor) {
        MemberSnoc(s.members, Membership(inv.group, actor, inv.role), g, u);
      }
    }
  }

  /** Inviting reaches every address given, and no other; invitations that exist are left as they are. */
  lemma {:induction false} InvitedExactly(
      s: Site, group: string, emails: seq<string>, from: User, role: Role, g: string, e: string)
    ensures var after := InviteAll(s, group, emails, from, role);
            (IsInvited(after.invitations, g, e) <==> IsInvited(s.invitations, g, e) || (g == group && e in emails))
            && s.invitations <= after.invitations
  {
    if emails != [] {
      var init, last := emails[..|emails| - 1], emails[|emails| - 1];
      assert emails == init + [last];
      InvitedExactly(s, group, init, from, role, g, e);
    }
  }

  lemma InvitationForSent(s: Site, email: User -> string, actor: User, token: nat)
    ensures InvitationFor(s, email, actor, token).Some? ==>
              exists inv :: inv in s.invitations && inv.token == token && inv.email == email(actor)
  {
    var found := Filter(s.invitations, (inv: Invitation) => inv.token == token && inv.email == email(actor));
    assert found != [] ==> found[0] in found;
  }

  // ---- Invitations and groups after a step ----

  /** The step deletes the group: a manager asks for it, and it is not the anonymous one. */
  predicate Removes(s: Site, step: Step, g: string) {
    step.Remove? && step.group == g && g != "anonymous" && g in s.profiles
        && Membership(g, step.actor, Manager) in s.members
  }

  /** The step invites the address: a manager of the group names it. */
  predicate Invites(s: Site, step: Step, g: string, e: string) {
    step.Invite? && step.group == g && e in step.emails && g in s.profiles
        && Membership(g, step.actor, Manager) in s.members
  }

  /** After a step an address is invited to a group exactly if it was and the group stays, or the step invites it. */
  lemma InvitedAfterExactly(s: Site, email: User -> string, step: Step, g: string, e: string)
    requires Orderly(s) && step.actor != ANONYMOUS
    ensures (exists inv :: inv in Apply(s, email, step).invitations && inv.group == g && inv.email == e)
       <==> ((exists inv :: inv in s.invitations && inv.group == g && inv.email == e) && !Removes(s, step, g))
            || Invites(s, step, g, e)
  {
    match step {
      case Create(actor, group, access) => JoinAllInvitations(Created(s, group, access), group, [actor], Manager);
      case Join(actor, group) => JoinAllInvitations(s, group, [actor], Member);
      case AddMembers(actor, group, users, role) => JoinAllInvitations(s, group, users, role);
      case RemoveMember(actor, group, user) =>
      case Invite(actor, group, emails, role) => InvitedExactly(s, group, emails, actor, role, g, e);
      case Accept(actor, token) => StateKeepsInvited(s, token, Some(actor), Accepted, g, e);
      case Decline(actor, token) => StateKeepsInvited(s, token, None, Declined, g, e);
      case Remove(actor, group) => RemoveInvited(s, email, step, g, e);
      case Enrol(actor, group, wanted) => JoinAllInvitations(Ensured(s, group, wanted), group, [actor], Member);
    }
  }

  lemma StateKeepsInvited(s: Site, token: nat, user: Option<User>, state: InvitationState, g: string, e: string)
    ensures IsInvited(SetState(s.invitations, token, user, state), g, e) <==> IsInvited(s.invitations, g, e)
  {
    var after := SetState(s.invitations, token, user, state);
    if inv :| inv in s.invitations && inv.group == g && inv.email == e {
      var k :| 0 <= k < |s.invitations| && s.invitations[k] == inv;
      assert after[k] in after && after[k].group == g && after[k].email == e;
    }
    if inv :| inv in after && inv.group == g && inv.email == e {
      var k :| 0 <= k < |after| && after[k] == inv;
      assert s.invitations[k] in s.invitations;
    }
  }

  lemma RemoveInvited(s: Site, email: User -> string, step: Step, g: string, e: string)
    requires step.Remove? && step.actor != ANONYMOUS
    ensures IsInvited(Apply(s, email, step).invitations, g, e)
        <==> IsInvited(s.invitations, g, e) && !Removes(s, step, g)
  {
    var after := Apply(s, email, step).invitations;
    if inv :| inv in s.invitations && inv.group == g && inv.email == e && !Removes(s, step, g) {
      assert inv in after;
    }
    if inv :| inv in after && inv.group == g && inv.email == e {
      assert inv in s.invitations;
    }
  }

  /** A new invitation names its sender, the role and the state "sent", and no user yet. */
  lemma NewInvitationExactly(s: Site, email: User -> string, step: Step, inv: Invitation)
    requires Orderly(s) && step.actor != ANONYMOUS && step.Invite? && inv in Apply(s, email, step).invitations
    requires inv !in s.invitations
    ensures Invites(s, step, inv.group, inv.email) && inv.fromUser == step.actor && inv.role == step.role
    ensures inv.state == Sent && inv.user == None && forall other :: other in s.invitations ==> other.token != inv.token
  {
    InviteAllAdds(s, step.group, step.emails, step.actor, step.role);
    NewHasNoUser(s, step.group, step.emails, step.actor, step.role);
  }

  lemma {:induction false} NewHasNoUser(s: Site, group: string, emails: seq<string>, from: User, role: Role)
    ensures forall inv :: inv in InviteAll(s, group, emails, from, role).invitations ==>
        inv in s.invitations || inv.user == None
  {
    if emails != [] {
      NewHasNoUser(s, group, emails[..|emails| - 1], from, role);
    }
  }

  /** The step answers the invitation: its addressee accepts it and is no member yet, or declines it. */
  predicate Answers(s: Site, email: User -> string, step: Step, inv: Invitation) {
    || (step.Accept? && step.token == inv.token && inv.email == email(step.actor)
        && forall m :: m in s.members ==> !(m.group == inv.group && m.user == step.actor))
    || (step.Decline? && step.token == inv.token && inv.email == email(step.actor))
  }

  /** An invitation after a step: gone with its group, answered by its addressee, or as it was. */
  lemma InvitationAfterExactly(s: Site, email: User -> string, step: Step, inv: Invitation)
    requires Orderly(s) && step.actor != ANONYMOUS && inv in s.invitations
    ensures var after := Apply(s, email, step).invitations;
            if Removes(s, step, inv.group) then forall other :: other in after ==> other.group != inv.group
            else if Answers(s, email, step, inv) && step.Accept? then
              inv.(state := Accepted, user := Some(step.actor)) in after
            else if Answers(s, email, step, inv) then inv.(state := Declined) in after
            else inv in after
  {
    match step {
      case Create(actor, group, access) => JoinAllInvitations(Created(s, group, access), group, [actor], Manager);
      case Join(actor, group) => JoinAllInvitations(s, group, [actor], Member);
      case AddMembers(actor, group, users, role) => JoinAllInvitations(s, group, users, role);
      case RemoveMember(actor, group, user) =>
      case Invite(actor, group, emails, role) => InvitedExactly(s, group, emails, actor, role, inv.group, inv.email);
      case Accept(actor, token) => AnsweredAfter(s, email, step, inv);
      case Decline(actor, token) => AnsweredAfter(s, email, step, inv);
      case Remove(actor, group) =>
      case Enrol(actor, group, wanted) => JoinAllInvitations(Ensured(s, group, wanted), group, [actor], Member);
    }
  }

  lemma AnsweredAfter(s: Site, email: User -> string, step: Step, inv: Invitation)
    requires Orderly(s) && step.actor != ANONYMOUS && inv in s.invitations && (step.Accept? || step.Decline?)
    ensures var after := Apply(s, email, step).invitations;
            if Answers(s, email, step, inv) && step.Accept? then
              inv.(state := Accepted, user := Some(step.actor)) in after
            else if Answers(s, email, step, inv) then inv.(state := Declined) in after
            else inv in after
  {
    var found := InvitationFor(s, email, step.actor, step.token);
    FoundInvitation(s, email, step.actor, step.token);
    var k :| 0 <= k < |s.invitations| && s.invitations[k] == inv;
    var user, state := if step.Accept? then Some(step.actor) else None, if step.Accept? then Accepted else Declined;
    var turned := SetState(s.invitations, step.token, user, state);
    assert turned[k] in turned;
    if inv.token == step.token && inv.email == email(step.actor) {
      OneToken(s, email, step.actor, step.token, inv);
    } else if found.Some? {
      SameToken(s.invitations, found.value);
    }
  }

  lemma FoundInvitation(s: Site, email: User -> string, actor: User, token: nat)
    ensures var found := InvitationFor(s, email, actor, token);
            found.Some? ==>
              found.value in s.invitations && found.value.token == token && found.value.email == email(actor)
  {
    var found := Filter(s.invitations, (inv: Invitation) => inv.token == token && inv.email == email(actor));
    assert found != [] ==> found[0] in found;
  }

  /**
   The groups after a step, and their access: those that stay as they were, and those made by a creation or an
   enrolment.
   */
  lemma GroupsAfterExactly(s: Site, email: User -> string, step: Step, g: string)
    requires step.actor != ANONYMOUS
    ensures var after := Apply(s, email, step).profiles;
            && (g in after <==>
                  (g in s.profiles && !Removes(s, step, g)) || ((step.Create? || step.Enrol?) && step.group == g))
            && (g in s.profiles && g in after ==> after[g] == s.profiles[g])
            && (g !in s.profiles && step.Create? && step.group == g ==> after[g] == step.access)
            && (g !in s.profiles && step.Enrol? && step.group == g ==>
                  after[g] == if step.wanted.Some? then step.wanted.value else Public)
  {
    match step {
      case Create(actor, group, access) => JoinAllAdds(Created(s, group, access), group, [actor], Manager);
      case Join(actor, group) => JoinAllAdds(s, group, [actor], Member);
      case AddMembers(actor, group, users, role) => JoinAllAdds(s, group, users, role);
      case Invite(actor, group, emails, role) => InviteAllFrame(s, group, emails, actor, role);
      case Enrol(actor, group, wanted) => JoinAllAdds(Ensured(s, group, wanted), group, [actor], Member);
      case _ =>
    }
  }

  /** An enrolment makes the user a member, except where the group is there with another access than the wanted one. */
  lemma EnrolledExactly(
      s: Site, email: User -> string, actor: User, group: string, wanted: Option<Access>, g: string, u: User)
    requires Orderly(s) && actor != ANONYMOUS
    ensures (exists m :: m in Apply(s, email, Enrol(actor, group, wanted)).members && m.group == g && m.user == u)
       <==> (exists m :: m in s.members && m.group == g && m.user == u)
            || (g == group && u == actor && (group in s.profiles && wanted.Some? ==> s.profiles[group] == wanted.value))
  {
    MembersAfterExactly(s, email, Enrol(actor, group, wanted), g, u);
  }

  /** The role of a membership a step makes. */
  lemma RoleAfterExactly(s: Site, email: User -> string, step: Step, m: Membership)
    requires m in Apply(s, email, step).members && m !in s.members
    ensures m.role == (match step
                       case Create(_, _, _) => Manager
                       case AddMembers(_, _, _, role) => role
                       case Accept(_, _) => m.role
                       case _ => Member)
    ensures step.Accept? ==> exists inv ::
        inv in s.invitations && inv.token == step.token && inv.group == m.group && inv.role == m.role
  {
    NewMemberIsAdmitted(s, email, step, m);
  }

  predicate InDjango(s: Site, group: string, user: User) {
    group in s.groups && user in s.groups[group]
  }

  /**
   The second record after a step: a user is in the Django group exactly if the step made the user a member, or the user
   was in it and the step removed neither the group nor the user's membership.
   */
  lemma DjangoAfterExactly(s: Site, email: User -> string, step: Step, g: string, u: User)
    requires step.actor != ANONYMOUS
    ensures var after := Apply(s, email, step);
            (g in after.groups && u in after.groups[g])
            <==> (IsMember(after.members, g, u) && !IsMember(s.members, g, u))
                 || (g in s.groups && u in s.groups[g] && !Removes(s, step, g)
                     && !(IsMember(s.members, g, u) && !IsMember(after.members, g, u)))
  {
    match step {
      case Create(actor, group, access) => JoinAllDjango(Created(s, group, access), group, [actor], Manager, g, u);
      case Join(actor, group) => JoinAllDjango(s, group, [actor], Member, g, u);
      case AddMembers(actor, group, users, role) => JoinAllDjango(s, group, users, role, g, u);
      case RemoveMember(actor, group, user) => RemovedFromBoth(s, email, step, g, u);
      case Invite(actor, group, emails, role) => InviteAllFrame(s, group, emails, actor, role);
      case Accept(actor, token) =>
        var found := InvitationFor(s, email, actor, token);
        if found.Some? {
          JoinAllDjango(s, found.value.group, [actor], found.value.role, g, u);
          assert [actor][1..] == [];
        }
      case Decline(actor, token) =>
      case Remove(actor, group) => GroupGone(s, email, step, g, u);
      case Enrol(actor, group, wanted) => JoinAllDjango(Ensured(s, group, wanted), group, [actor], Member, g, u);
    }
  }

  lemma {:induction false} JoinAllDjango(s: Site, group: string, users: seq<User>, role: Role, g: string, u: User)
    ensures var after := JoinAll(s, group, users, role);
            && (InDjango(after, g, u)
                <==> InDjango(s, g, u) || (IsMember(after.members, g, u) && !IsMember(s.members, g, u)))
            && (IsMember(s.members, g, u) ==> IsMember(after.members, g, u))
    decreases |users|
  {
    if users != [] {
      var next := JoinGroup(s, group, users[0], role);
      if next.Some? {
        JoinAllDjango(next.value, group, users[1..], role, g, u);
        JoinOneDjango(s, group, users[0], role, g, u);
      }
    }
  }

  lemma JoinOneDjango(s: Site, group: string, user: User, role: Role, g: string, u: User)
    requires JoinGroup(s, group, user, role).Some?
    ensures var after := JoinGroup(s, group, user, role).value;
            && (InDjango(after, g, u) <==> InDjango(s, g, u) || (g == group && u == user))
            && (IsMember(after.members, g, u) <==> IsMember(s.members, g, u) || (g == group && u == user))
            && !IsMember(s.members, group, user)
  {
    var last := Membership(group, user, role);
    assert last in s.members + [last];
  }

  lemma RemovedFromBoth(s: Site, email: User -> string, step: Step, g: string, u: User)
    requires step.RemoveMember? && step.actor != ANONYMOUS
    ensures var after := Apply(s, email, step);
            InDjango(after, g, u)
            <==> InDjango(s, g, u) && !(IsMember(s.members, g, u) && !IsMember(after.members, g, u))
    ensures IsMember(Apply(s, email, step).members, g, u) ==> IsMember(s.members, g, u)
  {
    var rows := RowsOf(s.members, step.group, step.user);
    assert rows != [] ==> rows[0] in rows;
  }

  lemma GroupGone(s: Site, email: User -> string, step: Step, g: string, u: User)
    requires step.Remove? && step.actor != ANONYMOUS
    ensures InDjango(Apply(s, email, step), g, u) <==> InDjango(s, g, u) && !Removes(s, step, g)
    ensures !Removes(s, step, g) ==>
        (IsMember(Apply(s, email, step).members, g, u) <==> IsMember(s.members, g, u))
  {
    if m :| m in s.members && m.group == g && m.user == u {
      assert !Removes(s, step, g) ==> m in Apply(s, email, step).members;
    }
  }

  // ---- Where invitations and memberships come from ----

  /** An invitation is accepted only by a step that makes its addressee a member, with the invited role. */
  lemma AcceptedMeansJoined(s: Site, email: User -> string, step: Step, before: Invitation, after: Invitation)
    requires before in s.invitations && after in Apply(s, email, step).invitations && before.token == after.token
    requires Orderly(s) && before.state != Accepted && after.state == Accepted
    ensures step == Accept(step.actor, before.token) && before.email == email(step.actor)
    ensures !IsMember(s.members, before.group, step.actor)
    ensures Membership(before.group, step.actor, before.role) in Apply(s, email, step).members
  {
    SameToken(s.invitations, before);
    if step.actor != ANONYMOUS {
      match step {
        case Create(actor, group, access) =>
          JoinAllInvitations(Created(s, group, access), group, [actor], Manager);
        case Join(actor, group) =>
          JoinAllInvitations(s, group, [actor], Member);
        case AddMembers(actor, group, users, role) =>
          JoinAllInvitations(s, group, users, role);
        case RemoveMember(actor, group, user) =>
        case Invite(actor, group, emails, role) =>
          InviteAllAdds(s, group, emails, actor, role);
        case Accept(actor, token) =>
          var found := InvitationFor(s, email, actor, token);
          if found.Some? && JoinGroup(s, found.value.group, actor, found.value.role).Some? {
            assert found.value in s.invitations && found.value.token == token && found.value.email == email(actor);
            assert token == before.token ==> found.value == before;
          }
        case Decline(actor, token) =>
        case Remove(actor, group) =>
        case Enrol(actor, group, wanted) =>
          JoinAllInvitations(Ensured(s, group, wanted), group, [actor], Member);
      }
    }
  }

  lemma SameToken(invitations: seq<Invitation>, inv: Invitation)
    requires OneInvitationEach(invitations) && inv in invitations
    ensures forall other :: other in invitations && other.token == inv.token ==> other == inv
  {
    forall other | other in invitations && other.token == inv.token ensures other == inv {
      var i, j :| 0 <= i < |invitations| && 0 <= j < |invitations| && invitations[i] == inv && invitations[j] == other;
      assert Clash(invitations[i], invitations[j]) && Clash(invitations[j], invitations[i]);
    }
  }

  lemma {:induction false} JoinAllInvitations(s: Site, group: string, users: seq<User>, role: Role)
    ensures JoinAll(s, group, users, role).invitations == s.invitations
    decreases |users|
  {
    if users != [] && JoinGroup(s, group, users[0], role).Some? {
      JoinAllInvitations(JoinGroup(s, group, users[0], role).value, group, users[1..], role);
    }
  }

  /** Inviting keeps old invitations and adds new ones as sent, from the inviting user. */
  lemma {:induction false} InviteAllAdds(s: Site, group: string, emails: seq<string>, from: User, role: Role)
    ensures forall inv :: inv in InviteAll(s, group, emails, from, role).invitations ==>
              inv in s.invitations
              || (inv.group == group && inv.email in emails && inv.fromUser == from && inv.role == role
                  && inv.state == Sent && inv.token >= s.nextToken)
    ensures InviteAll(s, group, emails, from, role).nextToken >= s.nextToken
  {
    if emails != [] {
      var init := emails[..|emails| - 1];
      InviteAllAdds(s, group, init, from, role);
      assert emails[|emails| - 1] in emails && forall e :: e in init ==> e in emails;
    }
  }

  /** How a step can make a user a member. */
  predicate Admits(s: Site, email: User -> string, step: Step, m: Membership) {
    match step
    case Create(actor, group, _) => m == Membership(group, actor, Manager) && group !in s.profiles
    case Join(actor, group) => m == Membership(group, actor, Member) && group in s.profiles
        && s.profiles[group] != Private
    case AddMembers(actor, group, users, role) =>
      m.group == group && m.user in users && m.role == role && IsRole(s.members, group, actor, Manager)
    case Accept(actor, token) =>
      m.user == actor && exists inv :: inv in s.invitations && inv.token == token && inv.email == email(actor)
                                       && inv.group == m.group && inv.role == m.role
    case Enrol(actor, group, wanted) => m == Membership(group, actor, Member) && !Mismatch(s, group, wanted)
    case _ => false
  }

  /** The step that sent an invitation: its sender was a manager of the group. */
  predicate Sends(s: Site, step: Step, inv: Invitation) {
    step.Invite? && step.group == inv.group && inv.email in step.emails && step.role == inv.role
        && step.actor == inv.fromUser
    && IsRole(s.members, inv.group, inv.fromUser, Manager)
  }

  lemma {:induction false} JoinAllAdds(s: Site, group: string, users: seq<User>, role: Role)
    ensures forall m :: m in JoinAll(s, group, users, role).members ==>
        m in s.members || (m.group == group && m.user in users && m.role == role)
    ensures JoinAll(s, group, users, role).profiles == s.profiles
    ensures group in s.groups ==> JoinAll(s, group, users, role).groups.Keys == s.groups.Keys
    decreases |users|
  {
    if users != [] && JoinGroup(s, group, users[0], role).Some? {
      JoinAllAdds(JoinGroup(s, group, users[0], role).value, group, users[1..], role);
      assert users[0] in users && forall u :: u in users[1..] ==> u in users;
    }
  }

  lemma NewMemberIsAdmitted(s: Site, email: User -> string, step: Step, m: Membership)
    requires m in Apply(s, email, step).members && m !in s.members
    ensures Admits(s, email, step, m)
    ensures step.Join? ==> Apply(s, email, step).profiles == s.profiles
  {
    match step {
      case Create(actor, group, access) =>
        JoinAllAdds(Created(s, group, access), group, [actor], Manager);
      case Join(actor, group) =>
        JoinAllAdds(s, group, [actor], Member);
      case AddMembers(actor, group, users, role) =>
        JoinAllAdds(s, group, users, role);
      case Invite(actor, group, emails, role) =>
        InviteAllFrame(s, group, emails, actor, role);
      case Accept(actor, token) =>
        assert InvitationFor(s, email, actor, token).value in s.invitations;
      case Enrol(actor, group, wanted) =>
        JoinAllAdds(Ensured(s, group, wanted), group, [actor], Member);
      case _ =>
    }
  }

  lemma {:induction false} InviteAllFrame(s: Site, group: string, emails: seq<string>, from: User, role: Role)
    ensures var after := InviteAll(s, group, emails, from, role);
            after.members == s.members && after.profiles == s.profiles && after.groups == s.groups
  {
    if emails != [] {
      InviteAllFrame(s, group, emails[..|emails| - 1], from, role);
    }
  }

  /** Access values stay as long as the group exists. */
  lemma AccessStays(s: Site, email: User -> string, step: Step, group: string)
    requires group in s.profiles && group in Apply(s, email, step).profiles
    ensures Apply(s, email, step).profiles[group] == s.profiles[group]
  {
    match step {
      case Create(actor, g, access) => JoinAllAdds(Created(s, g, access), g, [actor], Manager);
      case Join(actor, g) => JoinAllAdds(s, g, [actor], Member);
      case AddMembers(actor, g, users, role) => JoinAllAdds(s, g, users, role);
      case Invite(actor, g, emails, role) => InviteAllFrame(s, g, emails, actor, role);
      case Enrol(actor, g, wanted) => JoinAllAdds(Ensured(s, g, wanted), g, [actor], Member);
      case _ =>
    }
  }

  lemma AfterSnoc(s: Site, email: User -> string, run: seq<Step>, i: nat)
    requires i < |run|
    ensures After(s, email, run[..i + 1]) == Apply(After(s, email, run[..i]), email, run[i])
    ensures i + 1 == |run| ==> run[..i + 1] == run
  {
    assert run[..i + 1][..i] == run[..i];
  }

  lemma {:induction false} JoinAllOrderly(s: Site, group: string, users: seq<User>, role: Role)
    requires Orderly(s) && group in s.profiles
    ensures Orderly(JoinAll(s, group, users, role))
    decreases |users|
  {
    if users != [] {
      var next := JoinGroup(s, group, users[0], role);
      if next.Some? {
        assert forall i :: 0 <= i < |s.members| ==> s.members[i] in s.members;
        JoinAllOrderly(next.value, group, users[1..], role);
      }
    }
  }

  lemma {:induction false} InviteAllOrderly(s: Site, group: string, emails: seq<string>, from: User, role: Role)
    requires Orderly(s) && group in s.profiles
    ensures Orderly(InviteAll(s, group, emails, from, role))
    ensures InviteAll(s, group, emails, from, role).profiles == s.profiles
  {
    if emails != [] {
      var before := InviteAll(s, group, emails[..|emails| - 1], from, role);
      InviteAllOrderly(s, group, emails[..|emails| - 1], from, role);
      assert forall i :: 0 <= i < |before.invitations| ==> before.invitations[i] in before.invitations;
    }
  }

  lemma SetStateOrderly(s: Site, token: nat, user: Option<User>, state: InvitationState)
    requires Orderly(s)
    ensures Orderly(s.(invitations := SetState(s.invitations, token, user, state)))
  {
    assert forall i :: 0 <= i < |s.invitations| ==> s.invitations[i] in s.invitations;
  }

  /** Every step keeps the rows in order. */
  lemma StepKeepsOrder(s: Site, email: User -> string, step: Step)
    requires Orderly(s)
    ensures Orderly(Apply(s, email, step))
  {
    match step {
      case Create(actor, group, access) =>
        JoinAllOrderly(Created(s, group, access), group, [actor], Manager);
      case Join(actor, group) =>
        if group in s.profiles {
          JoinAllOrderly(s, group, [actor], Member);
        }
      case AddMembers(actor, group, users, role) =>
        if group in s.profiles {
          JoinAllOrderly(s, group, users, role);
        }
      case RemoveMember(actor, group, user) =>
        FilterOneRow(s.members, (m: Membership) => !(m.group == group && m.user == user));
      case Invite(actor, group, emails, role) =>
        if group in s.profiles {
          InviteAllOrderly(s, group, emails, actor, role);
        }
      case Accept(actor, token) =>
        AcceptOrderly(s, email, actor, token);
      case Decline(actor, token) =>
        SetStateOrderly(s, token, None, Declined);
      case Remove(actor, group) =>
        FilterOneRow(s.members, (m: Membership) => m.group != group);
        FilterOneInvitation(s.invitations, (inv: Invitation) => inv.group != group);
      case Enrol(actor, group, wanted) =>
        JoinAllOrderly(Ensured(s, group, wanted), group, [actor], Member);
    }
  }

  lemma AcceptOrderly(s: Site, email: User -> string, actor: User, token: nat)
    requires Orderly(s)
    ensures Orderly(Apply(s, email, Accept(actor, token)))
  {
    var found := InvitationFor(s, email, actor, token);
    if found.Some? && JoinGroup(s, found.value.group, actor, found.value.role).Some? {
      var next := JoinGroup(s, found.value.group, actor, found.value.role).value;
      assert found.value in s.invitations;
      assert [actor][1..] == [] && JoinAll(s, found.value.group, [actor], found.value.role) == next;
      JoinAllOrderly(s, found.value.group, [actor], found.value.role);
      SetStateOrderly(next, token, Some(actor), Accepted);
    }
  }

  /** So the rows are in order after any run. */
  lemma {:induction false} RunKeepsOrder(foreign: map<string, set<User>>, email: User -> string, run: seq<Step>)
    ensures Orderly(After(Fresh(foreign), email, run))
  {
    if run != [] {
      RunKeepsOrder(foreign, email, run[..|run| - 1]);
      StepKeepsOrder(After(Fresh(foreign), email, run[..|run| - 1]), email, run[|run| - 1]);
    }
  }

  /** The i-th step made the membership, which has lasted up to the n-th. */
  ghost predicate AdmittedAt(s0: Site, email: User -> string, run: seq<Step>, i: nat, n: nat, m: Membership)
    requires i < n <= |run|
  {
    && Admits(After(s0, email, run[..i]), email, run[i], m) && m !in After(s0, email, run[..i]).members
    && forall k :: i < k <= n ==> m in After(s0, email, run[..k]).members
  }

  lemma StillAdmitted(s0: Site, email: User -> string, run: seq<Step>, i: nat, n: nat, m: Membership)
    requires i < n - 1 < |run| && AdmittedAt(s0, email, run, i, n - 1, m) && m in After(s0, email, run[..n]).members
    ensures AdmittedAt(s0, email, run, i, n, m)
  {
  }

  /**
   Every membership was made by an admitting step and has lasted since; if by joining freely, the group had the
   access it has now.
   */
  lemma {:induction false} MembershipTraced(
      foreign: map<string, set<User>>, email: User -> string, run: seq<Step>, n: nat, m: Membership) returns (i: nat)
    requires n <= |run| && m in After(Fresh(foreign), email, run[..n]).members
    ensures i < n && AdmittedAt(Fresh(foreign), email, run, i, n, m)
    ensures m.group in After(Fresh(foreign), email, run[..n]).profiles
    ensures run[i].Join? ==> m.group in After(Fresh(foreign), email, run[..i]).profiles
    ensures run[i].Join? ==>
              After(Fresh(foreign), email, run[..i]).profiles[m.group]
                  == After(Fresh(foreign), email, run[..n]).profiles[m.group]
    decreases n
  {
    var s0 := Fresh(foreign);
    assert n > 0;
    AfterSnoc(s0, email, run, n - 1);
    RunKeepsOrder(foreign, email, run[..n]);
    var before := After(s0, email, run[..n - 1]);
    if m in before.members {
      i := MembershipTraced(foreign, email, run, n - 1, m);
      StillAdmitted(s0, email, run, i, n, m);
      AccessStays(before, email, run[n - 1], m.group);
    } else {
      i := n - 1;
      NewMemberIsAdmitted(before, email, run[n - 1], m);
    }
  }

  /** The same invitation, in whatever state. */
  predicate SameInvitation(a: Invitation, b: Invitation) {
    a.token == b.token && a.group == b.group && a.email == b.email && a.role == b.role && a.fromUser == b.fromUser
  }

  predicate Stands(s: Site, inv: Invitation) {
    exists other :: other in s.invitations && SameInvitation(other, inv)
  }

  lemma OldOrSent(s: Site, email: User -> string, step: Step, inv: Invitation)
    requires inv in Apply(s, email, step).invitations
    ensures Stands(s, inv) || Sends(s, step, inv)
  {
    match step {
      case Create(actor, group, access) => JoinAllInvitations(Created(s, group, access), group, [actor], Manager);
      case Join(actor, group) => JoinAllInvitations(s, group, [actor], Member);
      case AddMembers(actor, group, users, role) => JoinAllInvitations(s, group, users, role);
      case Invite(actor, group, emails, role) => InviteAllAdds(s, group, emails, actor, role);
      case Accept(actor, token) => SetStateKeeps(s.invitations, token, Some(actor), Accepted);
      case Decline(actor, token) => SetStateKeeps(s.invitations, token, None, Declined);
      case Enrol(actor, group, wanted) => JoinAllInvitations(Ensured(s, group, wanted), group, [actor], Member);
      case _ =>
    }
  }

  lemma SetStateKeeps(invitations: seq<Invitation>, token: nat, user: Option<User>, state: InvitationState)
    ensures forall inv :: inv in SetState(invitations, token, user, state) ==>
              exists before :: before in invitations && SameInvitation(before, inv)
  {
    var after := SetState(invitations, token, user, state);
    forall inv | inv in after ensures exists before :: before in invitations && SameInvitation(before, inv) {
      var k :| 0 <= k < |after| && after[k] == inv;
      assert invitations[k] in invitations && SameInvitation(invitations[k], inv);
    }
  }

  /** The j-th step sent the invitation, which has stood up to the n-th. */
  ghost predicate SentAt(s0: Site, email: User -> string, run: seq<Step>, j: nat, n: nat, inv: Invitation)
    requires j < n <= |run|
  {
    && Sends(After(s0, email, run[..j]), run[j], inv) && !Stands(After(s0, email, run[..j]), inv)
    && forall k :: j < k <= n ==> Stands(After(s0, email, run[..k]), inv)
  }

  /** Every invitation was sent by someone who was a manager of the group then, and has stood since. */
  lemma {:induction false} InvitationTraced(
      foreign: map<string, set<User>>, email: User -> string, run: seq<Step>, n: nat, inv: Invitation) returns (j: nat)
    requires n <= |run| && inv in After(Fresh(foreign), email, run[..n]).invitations
    ensures j < n && SentAt(Fresh(foreign), email, run, j, n, inv)
    decreases n
  {
    var s0 := Fresh(foreign);
    assert n > 0;
    AfterSnoc(s0, email, run, n - 1);
    var before, after := After(s0, email, run[..n - 1]), After(s0, email, run[..n]);
    assert SameInvitation(inv, inv) && Stands(after, inv);
    if earlier :| earlier in before.invitations && SameInvitation(earlier, inv) {
      j := InvitationTraced(foreign, email, run, n - 1, earlier);
      StillStands(s0, email, run, j, n, earlier, inv);
    } else {
      j := n - 1;
      OldOrSent(before, email, run[n - 1], inv);
    }
  }

  lemma StillStands(
      s0: Site, email: User -> string, run: seq<Step>, j: nat, n: nat, earlier: Invitation, inv: Invitation)
    requires j < n - 1 < |run| && SentAt(s0, email, run, j, n - 1, earlier)
    requires SameInvitation(earlier, inv) && Stands(After(s0, email, run[..n]), inv)
    ensures SentAt(s0, email, run, j, n, inv)
  {
    forall k | j <= k <= n ensures Stands(After(s0, email, run[..k]), inv)
        <==> Stands(After(s0, email, run[..k]), earlier) {
      SameStands(After(s0, email, run[..k]), earlier, inv);
    }
  }

  lemma SameStands(s: Site, a: Invitation, b: Invitation)
    requires SameInvitation(a, b)
    ensures Stands(s, a) <==> Stands(s, b)
  {
    if other :| other in s.invitations && SameInvitation(other, a) {
      assert SameInvitation(other, b);
    }
    if other :| other in s.invitations && SameInvitation(other, b) {
      assert SameInvitation(other, a);
    }
  }

  /** The accepted invitation of that membership was sent by a manager earlier and stood until it was accepted. */
  ghost predicate InvitedBefore(s0: Site, email: User -> string, run: seq<Step>, i: nat, m: Membership)
    requires i < |run| && run[i].Accept?
  {
    exists j: nat, inv :: j < i && SentAt(s0, email, run, j, i, inv) && inv.token == run[i].token
                          && inv.email == email(m.user) && inv.group == m.group && inv.role == m.role
  }

  /**
   A membership that has lasted since the step that made it: the creation of the group, a manager's add, the
   acceptance of a manager's invitation, or an enrolment by the system.
   */
  ghost predicate Vouched(s0: Site, email: User -> string, run: seq<Step>, m: Membership) {
    exists i: nat :: i < |run| && AdmittedAt(s0, email, run, i, |run|, m) && !run[i].Join?
                     && (run[i].Accept? ==> InvitedBefore(s0, email, run, i, m))
  }

  /** No one is in a private group without a manager's or the system's doing, over any run. */
  lemma PrivateMembersAreVouchedFor(
      foreign: map<string, set<User>>, email: User -> string, run: seq<Step>, m: Membership)
    requires m in After(Fresh(foreign), email, run).members
    requires m.group in After(Fresh(foreign), email, run).profiles
    requires After(Fresh(foreign), email, run).profiles[m.group] == Private
    ensures Vouched(Fresh(foreign), email, run, m)
  {
    var s0 := Fresh(foreign);
    assert run[..|run|] == run;
    var i := MembershipTraced(foreign, email, run, |run|, m);
    if run[i].Accept? {
      var site := After(s0, email, run[..i]);
      var inv :| inv in site.invitations && inv.token == run[i].token && inv.email == email(run[i].actor)
              && inv.group == m.group && inv.role == m.role;
      var j := InvitationTraced(foreign, email, run, i, inv);
      assert InvitedBefore(s0, email, run, i, m);
    }
  }

  /**
   A refused creation vouches for no one: whoever posts the form for an existing private group is not a member of
   it.
   */
  lemma RefusedCreationAdmitsNoOne(foreign: map<string, set<User>>, email: User -> string, group: string, role: Role)
    ensures var run := [Create(1, group, Private), Create(2, group, Private)];
            !IsMember(After(Fresh(foreign), email, run).members, group, 2)
            && !Vouched(Fresh(foreign), email, run, Membership(group, 2, role))
  {
    var run, s0 := [Create(1, group, Private), Create(2, group, Private)], Fresh(foreign);
    AfterSnoc(s0, email, run, 0);
    AfterSnoc(s0, email, run, 1);
    RunKeepsOrder(foreign, email, run[..1]);
    MembersAfterExactly(s0, email, run[0], group, 2);
    MembersAfterExactly(After(s0, email, run[..1]), email, run[1], group, 2);
    JoinAllAdds(Created(s0, group, Private), group, [1], Manager);
    assert After(s0, email, []) == s0 && run[..0] == [];
  }

  // ---- The tables as an object ----

  class GroupSite {
    var profiles: map<string, Access>
    var members: seq<Membership>
    var groups: map<string, set<User>>
    var invitations: seq<Invitation>
    var nextToken: nat

    constructor (s: Site)
      ensures Get() == s
    {
      profiles, members, groups, invitations, nextToken := s.profiles, s.members, s.groups, s.invitations, s.nextToken;
    }

    function Get(): Site
      reads this
    {
      Site(profiles, members, groups, invitations, nextToken)
    }

    /** GroupProfile.join: false stands for the ValueError. */
    method JoinOne(group: string, user: User, role: Role) returns (ok: bool)
      modifies this
      ensures ok <==> JoinGroup(old(Get()), group, user, role).Some?
      ensures Get() == if ok then JoinGroup(old(Get()), group, user, role).value else old(Get())
    {
      ok := user != ANONYMOUS && !IsMember(members, group, user);
      if ok {
        members := members + [Membership(group, user, role)];
        groups := groups[group := (if group in groups then groups[group] else {}) + {user}];
      }
    }

    /** The loop of group_members_add. */
    method AddAll(group: string, users: seq<User>, role: Role)
      modifies this
      ensures Get() == JoinAll(old(Get()), group, users, role)
    {
      for i := 0 to |users|
        invariant JoinAll(old(Get()), group, users, role) == JoinAll(Get(), group, users[i..], role)
      {
        assert users[i..][0] == users[i] && users[i..][1..] == users[i + 1..];
        var ok := JoinOne(group, users[i], role);
        if !ok {
          return;
        }
      }
    }

    /** GroupProfile.invite, for every address of the form. */
    method InviteEach(group: string, emails: seq<string>, from: User, role: Role)
      modifies this
      ensures Get() == InviteAll(old(Get()), group, emails, from, role)
    {
      for i := 0 to |emails|
        invariant Get() == InviteAll(old(Get()), group, emails[..i], from, role)
      {
        assert emails[..i + 1][..i] == emails[..i];
        if !IsInvited(invitations, group, emails[i]) {
          invitations := invitations + [Invitation(nextToken, group, emails[i], None, from, role, Sent)];
          nextToken := nextToken + 1;
        }
      }
      assert emails[..|emails|] == emails;
    }

    /**
     GroupInvitation.accept through the view: false stands for an unknown link or a ValueError; nothing is
     changed then.
     */
    method AcceptInvitation(email: User -> string, actor: User, token: nat) returns (ok: bool)
      requires actor != ANONYMOUS
      modifies this
      ensures Get() == Apply(old(Get()), email, Accept(actor, token))
      ensures !ok ==> Get() == old(Get())
      ensures ok ==> exists inv :: inv in old(invitations) && inv.token == token && inv.email == email(actor)
                                   && members == old(members) + [Membership(inv.group, actor, inv.role)]
    {
      var found := InvitationFor(Get(), email, actor, token);
      if found.None? {
        return false;
      }
      assert found.value in invitations;
      var before := invitations;
      ok := JoinOne(found.value.group, actor, found.value.role);
      if ok {
        invitations := SetState(before, token, Some(actor), Accepted);
      }
    }

    /** The views: every guard, then the operation. */
    method Perform(email: User -> string, step: Step)
      requires step.actor != ANONYMOUS
      modifies this
      ensures Get() == Apply(old(Get()), email, step)
    {
      match step {
        case Create(actor, group, access) =>
          if group !in profiles {
            groups := groups[group := if group in groups then groups[group] else {}];
            profiles := profiles[group := access];
            AddAll(group, [actor], Manager);
          }
        case Join(actor, group) =>
          if group in profiles && profiles[group] != Private && !IsMember(members, group, actor) {
            AddAll(group, [actor], Member);
          }
        case AddMembers(actor, group, users, role) =>
          if group in profiles && IsRole(members, group, actor, Manager) {
            AddAll(group, users, role);
          }
        case RemoveMember(actor, group, user) =>
          if group in profiles && IsRole(members, group, actor, Manager) && |RowsOf(members, group, user)| == 1 {
            members := WithoutRows(members, group, user);
            groups := groups[group := (if group in groups then groups[group] else {}) - {user}];
          }
        case Invite(actor, group, emails, role) =>
          if group in profiles && IsRole(members, group, actor, Manager) {
            InviteEach(group, emails, actor, role);
          }
        case Accept(actor, token) =>
          var ok := AcceptInvitation(email, actor, token);
        case Decline(actor, token) =>
          if InvitationFor(Get(), email, actor, token).Some? {
            invitations := SetState(invitations, token, None, Declined);
          }
        case Remove(actor, group) =>
          if group in profiles && IsRole(members, group, actor, Manager) && group != "anonymous" {
            profiles, groups := profiles - {group}, groups - {group};
            members := Filter(members, (m: Membership) => m.group != group);
            invitations := Filter(invitations, (inv: Invitation) => inv.group != group);
          }
        case Enrol(actor, group, wanted) =>
          if !(group in profiles && wanted.Some? && profiles[group] != wanted.value) {
            if group !in profiles {
              groups := groups[group := if group in groups then groups[group] else {}];
              profiles := profiles[group := wanted.GetOr(Public)];
            }
            AddAll(group, [actor], Member);
          }
      }
    }
  }
}
