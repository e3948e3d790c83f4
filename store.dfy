/**
 * The database behind the repositories: one object holding the five tables
 * and the source of fresh primary keys. Its methods are the operations of
 * the repository classes that write rows, plus the duplicate-email guard of
 * the user-creation route (app/main.py).
 */
module Store {
  import opened Wrappers
  import opened Models
  import opened Repository
  import opened Tables
  import Users
  import Groups
  import Expenses

  class Ledger {
    var users: seq<User>
    var groups: seq<Group>
    var members: seq<GroupMember>
    var expenses: seq<Expense>
    var splits: seq<ExpenseSplit>
    /** Every id stored anywhere, key or reference, is below `nextId`. */
    var nextId: Id

    /** Primary keys unique per table, emails unique, and no id in use at or above `nextId`. */
    ghost predicate Valid()
      reads this
    {
      Ok(users, groups, members, expenses, splits, nextId)
    }

    /** The declared foreign keys all point at existing rows (the store itself does not check them). */
    ghost predicate ReferencesResolve()
      reads this
    {
      Resolves(users, groups, members, expenses, splits)
    }

    constructor ()
      ensures Valid() && ReferencesResolve()
      ensures users == [] && groups == [] && members == [] && expenses == [] && splits == []
    {
      users, groups, members, expenses, splits := [], [], [], [], [];
      nextId := 0;
    }

    // ----- users (app/repositories/user.py) -----

    /** `UserRepository.create`: a new user with the given fields copied verbatim; the store refuses a taken email. */
    method CreateUser(name: string, email: string, password: string, now: Timestamp) returns (r: Result<User, Error>)
      requires Valid()
      modifies this
      ensures Valid()
      ensures r.Failure? <==> exists x :: x in old(users) && x.email == email
      ensures r.Failure? ==> r.error == UniqueViolation && unchanged(this)
      ensures r.Success? ==>
        && r.value == User(old(nextId), name, email, password, now)
        && users == old(users) + [r.value] && nextId == old(nextId) + 1
        && groups == old(groups) && members == old(members)
        && expenses == old(expenses) && splits == old(splits)
      ensures r.Success? ==> forall x :: x in old(users) ==> x.id != r.value.id
      ensures old(ReferencesResolve()) ==> ReferencesResolve()
    {
      if exists x :: x in users && x.email == email {
        r := Failure(UniqueViolation);
        return;
      }
      var user := User(nextId, name, email, password, now);
      KeyAppend(users, UserKey, user, nextId, nextId + 1);
      AppendNewKey(users, UserEmail, user);
      TablesGrow(users, groups, members, expenses, splits, nextId, nextId + 1);
      ResolvesNewUser(users, groups, members, expenses, splits, user);
      users := users + [user];
      nextId := nextId + 1;
      r := Success(user);
    }

    /** The user-creation route: refuse an email `get_by_email` finds, otherwise create the user. */
    method RegisterUser(name: string, email: string, password: string, now: Timestamp) returns (r: Result<User, Error>)
      requires Valid()
      modifies this
      ensures Valid()
      ensures r.Failure? <==> exists x :: x in old(users) && x.email == email
      ensures r.Failure? ==> r.error == EmailAlreadyRegistered && unchanged(this)
      ensures r.Success? ==>
        && r.value == User(old(nextId), name, email, password, now)
        && users == old(users) + [r.value] && nextId == old(nextId) + 1
        && groups == old(groups) && members == old(members)
        && expenses == old(expenses) && splits == old(splits)
      ensures old(ReferencesResolve()) ==> ReferencesResolve()
    {
      var existing := Users.GetByEmail(users, email);
      match existing
      case Success(Some(_)) =>
        r := Failure(EmailAlreadyRegistered);
      case Success(None) =>
        r := CreateUser(name, email, password, now);
      case Failure(_) =>
        assert false;
    }

    // ----- the generic repository (app/repositories/base.py) -----

    /** `GroupRepository.create` (the inherited `create`): a new group with a fresh key and no members or expenses. */
    method CreateGroup(name: string, now: Timestamp, description: Option<string> := None) returns (g: Group)
      requires Valid()
      modifies this
      ensures Valid()
      ensures g == Group(old(nextId), name, description, now)
      ensures groups == old(groups) + [g] && nextId == old(nextId) + 1
      ensures users == old(users) && members == old(members) && expenses == old(expenses) && splits == old(splits)
      ensures forall x :: x in old(groups) ==> x.id != g.id
      ensures Groups.GroupMembers(members, g.id) == [] && Expenses.GroupExpenses(expenses, g.id) == []
      ensures old(ReferencesResolve()) ==> ReferencesResolve()
    {
      g := Group(nextId, name, description, now);
      NewGroupCreated(users, groups, members, expenses, splits, nextId, g);
      groups := groups + [g];
      nextId := nextId + 1;
    }

    /**
     * `UserRepository.delete(id)`: false when no user has the key. A user
     * with membership rows or paid expenses cannot go: the ORM nulls their
     * NOT NULL `user_id` and the commit fails. Otherwise the row is removed.
     * Splits naming the user are not loaded by any relationship and are left
     * dangling, since the store does not enforce foreign keys.
     */
    method DeleteUser(id: Id) returns (r: Result<bool, Error>)
      requires Valid()
      modifies this
      ensures Valid()
      ensures r == Success(false) <==> !Has(old(users), UserKey, id)
      ensures r.Failure? <==> Has(old(users), UserKey, id) && UserHasChildren(old(members), old(expenses), id)
      ensures r.Failure? ==> r.error == NotNullViolation
      ensures users == if r == Success(true) then Deleted(old(users), UserKey, id) else old(users)
      ensures r == Success(true) ==> |users| == old(|users|) - 1
      ensures r.Success? ==> Get(users, UserKey, id) == Success(None)
      ensures groups == old(groups) && members == old(members) && expenses == old(expenses)
      ensures splits == old(splits) && nextId == old(nextId)
      ensures old(ReferencesResolve()) && (forall s :: s in old(splits) ==> s.userId != id) ==> ReferencesResolve()
    {
      var found := Get(users, UserKey, id);
      if found == Success(None) {
        r := Success(false);
        return;
      }
      if UserHasChildren(members, expenses, id) {
        r := Failure(NotNullViolation);
        return;
      }
      UsersDeleted(users, id, nextId);
      ResolvesUserDeleted(users, groups, members, expenses, splits, id);
      users := Deleted(users, UserKey, id);
      r := Success(true);
    }

    /**
     * `GroupRepository.delete(id)`: false when no group has the key; a
     * failed commit when memberships or expenses name the group; otherwise
     * the row is removed.
     */
    method DeleteGroup(id: Id) returns (r: Result<bool, Error>)
      requires Valid()
      modifies this
      ensures Valid()
      ensures r == Success(false) <==> !Has(old(groups), GroupKey, id)
      ensures r.Failure? <==> Has(old(groups), GroupKey, id) && GroupHasChildren(old(members), old(expenses), id)
      ensures r.Failure? ==> r.error == NotNullViolation
      ensures groups == if r == Success(true) then Deleted(old(groups), GroupKey, id) else old(groups)
      ensures r == Success(true) ==> |groups| == old(|groups|) - 1
      ensures r.Success? ==> Get(groups, GroupKey, id) == Success(None)
      ensures users == old(users) && members == old(members) && expenses == old(expenses)
      ensures splits == old(splits) && nextId == old(nextId)
      ensures old(ReferencesResolve()) ==> ReferencesResolve()
    {
      var found := Get(groups, GroupKey, id);
      if found == Success(None) {
        r := Success(false);
        return;
      }
      if GroupHasChildren(members, expenses, id) {
        r := Failure(NotNullViolation);
        return;
      }
      GroupsDeleted(groups, id, nextId);
      ResolvesGroupDeleted(users, groups, members, expenses, splits, id);
      groups := Deleted(groups, GroupKey, id);
      r := Success(true);
    }

    /**
     * `ExpenseRepository.delete(id)`: false when no expense has the key; a
     * failed commit when splits name the expense; otherwise the row is removed.
     */
    method DeleteExpense(id: Id) returns (r: Result<bool, Error>)
      requires Valid()
      modifies this
      ensures Valid()
      ensures r == Success(false) <==> !Has(old(expenses), ExpenseKey, id)
      ensures r.Failure? <==> Has(old(expenses), ExpenseKey, id) && ExpenseHasChildren(old(splits), id)
      ensures r.Failure? ==> r.error == NotNullViolation
      ensures expenses == if r == Success(true) then Deleted(old(expenses), ExpenseKey, id) else old(expenses)
      ensures r == Success(true) ==> |expenses| == old(|expenses|) - 1
      ensures r.Success? ==> Get(expenses, ExpenseKey, id) == Success(None)
      ensures users == old(users) && groups == old(groups) && members == old(members)
      ensures splits == old(splits) && nextId == old(nextId)
      ensures old(ReferencesResolve()) ==> ReferencesResolve()
    {
      var found := Get(expenses, ExpenseKey, id);
      if found == Success(None) {
        r := Success(false);
        return;
      }
      if ExpenseHasChildren(splits, id) {
        r := Failure(NotNullViolation);
        return;
      }
      ExpensesDeleted(expenses, id, nextId);
      ResolvesExpenseDeleted(users, groups, members, expenses, splits, id);
      expenses := Deleted(expenses, ExpenseKey, id);
      r := Success(true);
    }

    /** `update` on a stored user: the named fields are overwritten; the store refuses an email another user has. */
    method UpdateUser(dbObj: User, fields: seq<UserField>) returns (r: Result<User, Error>)
      requires Valid()
      requires dbObj in users
      requires DistinctKinds(fields, UserFieldKind)
      modifies this
      ensures Valid()
      ensures var updated := Assigned(dbObj, fields, SetUserAttr);
        && (r.Failure? <==> exists x :: x in old(users) && x.id != dbObj.id && x.email == updated.email)
        && (r.Success? ==> r.value == updated && users == Replaced(old(users), UserKey, updated))
      ensures r.Failure? ==> r.error == UniqueViolation && unchanged(this)
      ensures groups == old(groups) && members == old(members) && expenses == old(expenses)
      ensures splits == old(splits) && nextId == old(nextId)
    {
      var updated := AssignAll(dbObj, fields, SetUserAttr);
      UserUntouched(dbObj, fields);
      if exists x :: x in users && x.id != dbObj.id && x.email == updated.email {
        r := Failure(UniqueViolation);
        return;
      }
      assert dbObj in users && UserKey(dbObj) == updated.id;
      UsersReplaced(users, updated, nextId);
      var next := Replaced(users, UserKey, updated);
      users := next;
      r := Success(updated);
    }

    /** `update` on a stored group: the named fields are overwritten, nothing else changes. */
    method UpdateGroup(dbObj: Group, fields: seq<GroupField>) returns (r: Group)
      requires Valid()
      requires dbObj in groups
      requires DistinctKinds(fields, GroupFieldKind)
      modifies this
      ensures Valid()
      ensures r == Assigned(dbObj, fields, SetGroupAttr)
      ensures groups == Replaced(old(groups), GroupKey, r)
      ensures Get(groups, GroupKey, r.id) == Success(Some(r))
      ensures users == old(users) && members == old(members) && expenses == old(expenses)
      ensures splits == old(splits) && nextId == old(nextId)
    {
      r := AssignAll(dbObj, fields, SetGroupAttr);
      GroupUntouched(dbObj, fields);
      ReplacedSpec(groups, GroupKey, r);
      groups := Replaced(groups, GroupKey, r);
    }

    /**
     * `update` on a stored expense: the named fields are overwritten, nothing
     * else changes. Assigning no date writes NULL into the NOT NULL `date`
     * column, and the commit fails.
     */
    method UpdateExpense(dbObj: Expense, fields: seq<ExpenseField>) returns (r: Result<Expense, Error>)
      requires Valid()
      requires dbObj in expenses
      requires DistinctKinds(fields, ExpenseFieldKind)
      modifies this
      ensures Valid()
      ensures var updated := Assigned(dbObj, fields, SetExpenseAttr);
        && (r.Failure? <==> updated.date == None)
        && (r.Success? ==> r.value == updated && expenses == Replaced(old(expenses), ExpenseKey, updated))
      ensures r.Failure? ==> r.error == NotNullViolation && unchanged(this)
      ensures r.Success? ==> Get(expenses, ExpenseKey, r.value.id) == Success(Some(r.value))
      ensures r.Success? ==> nextId == Fresh(old(nextId), [r.value.userId, r.value.groupId])
      ensures users == old(users) && groups == old(groups) && members == old(members) && splits == old(splits)
    {
      var updated := AssignAll(dbObj, fields, SetExpenseAttr);
      if updated.date == None {
        r := Failure(NotNullViolation);
        return;
      }
      ExpenseUntouched(dbObj, fields);
      var bound := Fresh(nextId, [updated.userId, updated.groupId]);
      assert updated.id == dbObj.id && ExpenseKey(dbObj) == updated.id;
      assert updated.userId in [updated.userId, updated.groupId] && updated.groupId in [updated.userId, updated.groupId];
      ExpensesReplaced(expenses, updated, nextId, bound);
      TablesGrow(users, groups, members, expenses, splits, nextId, bound);
      expenses := Replaced(expenses, ExpenseKey, updated);
      nextId := bound;
      r := Success(updated);
    }

    // ----- groups (app/repositories/group.py) -----

    /**
     * `create_group_with_members`: a new group, then one membership row per
     * id of `memberIds`, in order and without removing repetitions. The rows
     * are staged in the loop and all reach the tables at the commit.
     */
    method CreateGroupWithMembers(name: string, description: Option<string>, memberIds: seq<Id>, now: Timestamp)
      returns (g: Group)
      requires Valid()
      modifies this
      ensures Valid()
      ensures g.name == name && g.description == description && g.createdAt == now
      ensures g.id >= old(nextId) && g.id !in memberIds
      ensures groups == old(groups) + [g]
      ensures members == old(members) + Groups.MembershipRows(g.id + 1, g.id, memberIds)
      ensures nextId == g.id + 1 + |memberIds|
      ensures users == old(users) && expenses == old(expenses) && splits == old(splits)
      ensures old(ReferencesResolve()) && (forall u :: u in memberIds ==> Has(old(users), UserKey, u)) ==> ReferencesResolve()
    {
      var id := Fresh(nextId, memberIds);
      g := Group(id, name, description, now);
      var staged: seq<GroupMember> := [];
      for i := 0 to |memberIds|
        invariant staged == Groups.MembershipRows(id + 1, id, memberIds[..i])
      {
        var row := GroupMember(id + 1 + i, memberIds[i], id);
        assert staged + [row] == Groups.MembershipRows(id + 1, id, memberIds[..i + 1]) by {
          Groups.MembershipRowsSnoc(id + 1, id, memberIds, i);
        }
        staged := staged + [row];
      }
      assert memberIds[..|memberIds|] == memberIds;
      NewGroupCommitted(users, groups, members, expenses, splits, nextId, g, memberIds);
      NewGroupResolves(users, groups, members, expenses, splits, g, memberIds);
      groups := groups + [g];
      members := members + staged;
      nextId := id + 1 + |memberIds|;
    }

    /** `add_member`: true and one new (g, u) row when there is none; false when there is one; an error for several. */
    method AddMember(g: Id, u: Id) returns (r: Result<bool, Error>)
      requires Valid()
      modifies this
      ensures Valid()
      ensures (r, members) == Groups.AddMemberStep(old(members), g, u, Fresh(old(nextId), [g, u]))
      ensures nextId == if r == Success(true) then Fresh(old(nextId), [g, u]) + 1 else old(nextId)
      ensures users == old(users) && groups == old(groups) && expenses == old(expenses) && splits == old(splits)
      ensures old(ReferencesResolve()) && Has(old(users), UserKey, u) && Has(old(groups), GroupKey, g) ==> ReferencesResolve()
    {
      var found := ScalarOneOrNone(Where(members, Groups.PairIs(g, u)));
      match found
      case Success(Some(_)) =>
        r := Success(false);
      case Failure(e) =>
        r := Failure(e);
      case Success(None) =>
        var id := Fresh(nextId, [g, u]);
        var row := GroupMember(id, u, g);
        MemberAppend(members, row, nextId, id + 1);
        TablesGrow(users, groups, members, expenses, splits, nextId, id + 1);
        ResolvesNewMember(users, groups, members, expenses, splits, row);
        members := members + [row];
        nextId := id + 1;
        r := Success(true);
    }

    // ----- expenses (app/repositories/expense.py) -----

    /**
     * `create_expense_with_splits`: the request's date is passed on as it is,
     * so a request without one writes NULL into the NOT NULL `date` column and
     * the first commit fails with nothing written. With a date, the expense
     * and its splits are added as `InsertExpenseWithSplits` states.
     */
    method CreateExpenseWithSplits(input: ExpenseCreate, payer: Id) returns (r: Result<Expense, Error>)
      requires Valid()
      modifies this
      ensures Valid()
      ensures r.Failure? <==> input.date == None
      ensures r.Failure? ==> r.error == NotNullViolation && unchanged(this)
      ensures r.Success? ==> var e := r.value;
        && e.description == input.description && e.amount == input.amount && e.date == input.date
        && e.userId == payer && e.groupId == input.groupId
        && e.id >= old(nextId) && e.id != payer && e.id != input.groupId
        && expenses == old(expenses) + [e]
        && splits == old(splits) + Expenses.SplitRows(e.id + 1, e.id, input.splits)
        && nextId == e.id + 1 + |input.splits|
        && users == old(users) && groups == old(groups) && members == old(members)
      ensures old(ReferencesResolve()) && Has(old(users), UserKey, payer) && Has(old(groups), GroupKey, input.groupId)
              && (forall x :: x in input.splits ==> Has(old(users), UserKey, x.userId))
              ==> ReferencesResolve()
    {
      if input.date == None {
        r := Failure(NotNullViolation);
        return;
      }
      var e := InsertExpenseWithSplits(input, payer);
      r := Success(e);
    }

    /**
     * The two commits of `create_expense_with_splits` for a dated request: a
     * new expense paid by `payer` with the request's fields, then one split
     * row per entry, in order. The rows are staged in the loop and all reach
     * the tables at the commit. Nothing is validated;
     * `Expenses.BalanceAfterExpense` gives how every balance moves.
     */
    method InsertExpenseWithSplits(input: ExpenseCreate, payer: Id) returns (e: Expense)
      requires Valid()
      requires input.date != None
      modifies this
      ensures Valid()
      ensures e.description == input.description && e.amount == input.amount && e.date == input.date
      ensures e.userId == payer && e.groupId == input.groupId
      ensures e.id >= old(nextId) && e.id != payer && e.id != input.groupId
      ensures expenses == old(expenses) + [e]
      ensures splits == old(splits) + Expenses.SplitRows(e.id + 1, e.id, input.splits)
      ensures nextId == e.id + 1 + |input.splits|
      ensures users == old(users) && groups == old(groups) && members == old(members)
      ensures old(ReferencesResolve()) && Has(old(users), UserKey, payer) && Has(old(groups), GroupKey, input.groupId)
              && (forall x :: x in input.splits ==> Has(old(users), UserKey, x.userId))
              ==> ReferencesResolve()
    {
      var id := Fresh(nextId, [payer, input.groupId] + EntryUsers(input.splits));
      e := Expense(id, input.description, input.amount, input.date, payer, input.groupId);
      var staged: seq<ExpenseSplit> := [];
      for i := 0 to |input.splits|
        invariant staged == Expenses.SplitRows(id + 1, id, input.splits[..i])
      {
        var row := ExpenseSplit(id + 1 + i, id, input.splits[i].userId, input.splits[i].amount);
        assert staged + [row] == Expenses.SplitRows(id + 1, id, input.splits[..i + 1]) by {
          Expenses.SplitRowsSnoc(id + 1, id, input.splits, i);
        }
        staged := staged + [row];
      }
      assert input.splits[..|input.splits|] == input.splits;
      NewExpenseCommitted(users, groups, members, expenses, splits, nextId, e, input.splits);
      NewExpenseResolves(users, groups, members, expenses, splits, e, input.splits);
      expenses := expenses + [e];
      splits := splits + staged;
      nextId := id + 1 + |input.splits|;
    }
  }
}
