/** The membership queries of app/repositories/group.py. */
module Groups {
  import opened Wrappers
  import opened Models
  import opened Repository

  function MemberOfGroup(g: Id): GroupMember -> bool { (m: GroupMember) => m.groupId == g }

  function PairIs(g: Id, u: Id): GroupMember -> bool { (m: GroupMember) => m.groupId == g && m.userId == u }

  function UserIds(ms: seq<GroupMember>): seq<Id> {
    seq(|ms|, i requires 0 <= i < |ms| => ms[i].userId)
  }

  /** `get_group_members`: the user id of each membership row of the group, in table order. */
  function GroupMembers(members: seq<GroupMember>, g: Id): seq<Id> {
    UserIds(Where(members, MemberOfGroup(g)))
  }

  /** `get_group_members` lists one id per membership row of the group, and exactly the users with such a row. */
  lemma GroupMembersSpec(members: seq<GroupMember>, g: Id)
    ensures |GroupMembers(members, g)| == |Where(members, MemberOfGroup(g))|
    ensures forall u :: u in GroupMembers(members, g) <==> exists m :: m in members && m.groupId == g && m.userId == u
  {
    var rows := Where(members, MemberOfGroup(g));
    var r := UserIds(rows);
    forall m | m in rows ensures m.userId in r {
      var k :| 0 <= k < |rows| && rows[k] == m;
      assert r[k] == m.userId;
    }
    forall u | u in r ensures exists m :: m in rows && m.userId == u {
      var k :| 0 <= k < |r| && r[k] == u;
      assert rows[k] in rows;
    }
  }

  /** The membership rows `create_group_with_members` adds: one per id, ids numbered from `firstId`. */
  function MembershipRows(firstId: Id, g: Id, uids: seq<Id>): seq<GroupMember> {
    seq(|uids|, i requires 0 <= i < |uids| => GroupMember(firstId + i, uids[i], g))
  }

  /** Staging one more id appends its membership row. */
  lemma MembershipRowsSnoc(firstId: Id, g: Id, uids: seq<Id>, i: nat)
    requires i < |uids|
    ensures MembershipRows(firstId, g, uids[..i + 1]) == MembershipRows(firstId, g, uids[..i]) + [GroupMember(firstId + i, uids[i], g)]
  {
  }

  /** Listing a new group's members gives back the requested ids, in order and with repetitions. */
  lemma MembersOfNewGroup(members: seq<GroupMember>, firstId: Id, g: Id, uids: seq<Id>)
    requires forall m :: m in members ==> m.groupId != g
    ensures GroupMembers(members + MembershipRows(firstId, g, uids), g) == uids
  {
    var added := MembershipRows(firstId, g, uids);
    WhereConcat(members, added, MemberOfGroup(g));
    WhereNone(members, MemberOfGroup(g));
    WhereEvery(added, MemberOfGroup(g));
    assert UserIds(added) == uids;
  }

  /**
   * `add_member` on the membership table: look for (g, u) rows; with none,
   * add row `id` and answer true; with one, answer false; with several,
   * `scalar_one_or_none` raises.
   */
  function AddMemberStep(members: seq<GroupMember>, g: Id, u: Id, id: Id): (r: (Result<bool, Error>, seq<GroupMember>))
    ensures r.0 == Success(true) <==> forall m :: m in members ==> !(m.groupId == g && m.userId == u)
    ensures r.0 == Success(false) <==> |Where(members, PairIs(g, u))| == 1
    ensures r.0.Failure? <==> |Where(members, PairIs(g, u))| > 1
    ensures r.0.Failure? ==> r.0.error == MultipleResultsFound
    ensures r.1 == if r.0 == Success(true) then members + [GroupMember(id, u, g)] else members
  {
    WhereEmpty(members, PairIs(g, u));
    match ScalarOneOrNone(Where(members, PairIs(g, u)))
    case Success(None) => (Success(true), members + [GroupMember(id, u, g)])
    case Success(Some(_)) => (Success(false), members)
    case Failure(e) => (Failure(e), members)
  }

  /**
   * Once `add_member(g, u)` has answered, asking again answers false and adds
   * nothing, and `u` is listed among the members of `g`.
   */
  lemma AddMemberIdempotent(members: seq<GroupMember>, g: Id, u: Id, id1: Id, id2: Id)
    requires AddMemberStep(members, g, u, id1).0.Success?
    ensures var after := AddMemberStep(members, g, u, id1).1;
      && AddMemberStep(after, g, u, id2) == (Success(false), after)
      && u in GroupMembers(after, g)
      && |after| <= |members| + 1
  {
    var first := AddMemberStep(members, g, u, id1);
    var after := first.1;
    if first.0 == Success(true) {
      var row := GroupMember(id1, u, g);
      WhereConcat(members, [row], PairIs(g, u));
      WhereNone(members, PairIs(g, u));
      assert Where([row], PairIs(g, u)) == [row] + Where([], PairIs(g, u));
      assert row in after;
    } else {
      var w := Where(members, PairIs(g, u));
      assert w[0] in w;
    }
    GroupMembersSpec(after, g);
  }
}
