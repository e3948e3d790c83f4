/** The user lookups of app/repositories/user.py. */
module Users {
  import opened Wrappers
  import opened Models
  import opened Repository

  function MemberOfUser(u: Id): GroupMember -> bool { (m: GroupMember) => m.userId == u }

  /** `get_by_email`: the user with that email, or `None`; never several while emails are unique. */
  function GetByEmail(users: seq<User>, email: string): (r: Result<Option<User>, Error>)
    ensures r.Success? && r.value.Some? ==> r.value.value in users && r.value.value.email == email
    ensures r == Success(None) <==> forall x :: x in users ==> x.email != email
    ensures KeysUnique(users, UserEmail) ==> r.Success?
  {
    Get(users, UserEmail, email)
  }

  /**
   * `get_user_groups` as written: an unknown user gives `[]`; for a known
   * user it iterates `user.groups`, which holds the user's GroupMember rows,
   * and reads `.name` of each, a field GroupMember does not have.
   */
  function GetUserGroups(users: seq<User>, members: seq<GroupMember>, u: Id): (r: Result<seq<GroupRef>, Error>)
    ensures r.Success? ==> r.value == []
    ensures KeysUnique(users, UserKey) ==>
      (r.Failure? <==> (exists x :: x in users && x.id == u) && (exists m :: m in members && m.userId == u))
    ensures KeysUnique(users, UserKey) && r.Failure? ==> r.error == AttributeError
  {
    WhereEmpty(members, MemberOfUser(u));
    match Get(users, UserKey, u)
    case Failure(e) => Failure(e)
    case Success(None) => Success([])
    case Success(Some(_)) =>
      if Where(members, MemberOfUser(u)) == [] then Success([]) else Failure(AttributeError)
  }

  /** The `{"id", "name"}` of the group each membership row points at, skipping rows whose group is gone. */
  function GroupRefsOf(groups: seq<Group>, ms: seq<GroupMember>): (r: seq<GroupRef>)
    ensures KeysUnique(groups, GroupKey) ==>
      forall ref :: ref in r <==>
        exists g, m :: g in groups && m in ms && g.id == m.groupId && ref == GroupRef(g.id, g.name)
  {
    if ms == [] then []
    else
      var head := match Get(groups, GroupKey, ms[0].groupId)
        case Success(Some(g)) => [GroupRef(g.id, g.name)]
        case _ => [];
      var rest := GroupRefsOf(groups, ms[1..]);
      assert forall m :: m in ms <==> m == ms[0] || m in ms[1..];
      head + rest
  }

  /** `get_user_groups` as evidently intended: the groups the user belongs to. */
  function UserGroups(users: seq<User>, groups: seq<Group>, members: seq<GroupMember>, u: Id): (r: seq<GroupRef>)
    ensures (forall x :: x in users ==> x.id != u) ==> r == []
    ensures (exists x :: x in users && x.id == u) && KeysUnique(groups, GroupKey) ==>
      forall ref :: ref in r <==>
        exists g, m :: g in groups && m in members && m.userId == u && g.id == m.groupId && ref == GroupRef(g.id, g.name)
  {
    if exists x :: x in users && x.id == u then GroupRefsOf(groups, Where(members, MemberOfUser(u))) else []
  }

  /** The defect: a user with one membership row makes `get_user_groups` raise instead of listing the group. */
  lemma GetUserGroupsFailsForMember(name: string, email: string, password: string, now: Timestamp, groupName: string)
    ensures var users := [User(1, name, email, password, now)];
      var groups := [Group(2, groupName, None, now)];
      var members := [GroupMember(3, 1, 2)];
      && GetUserGroups(users, members, 1) == Failure(AttributeError)
      && UserGroups(users, groups, members, 1) == [GroupRef(2, groupName)]
  {
    var users := [User(1, name, email, password, now)];
    var groups := [Group(2, groupName, None, now)];
    var members := [GroupMember(3, 1, 2)];
    assert GroupMember(3, 1, 2) in Where(members, MemberOfUser(1));
    assert Where(members, MemberOfUser(1)) == members;
    assert Get(users, UserKey, 1) == Success(Some(users[0]));
    assert GetUserGroups(users, members, 1) == Failure(AttributeError);
    assert Get(groups, GroupKey, 2) == Success(Some(groups[0]));
    assert members[1..] == [];
    assert GroupRefsOf(groups, members) == [GroupRef(2, groupName)] + GroupRefsOf(groups, []);
    assert users[0] in users;
  }
}
