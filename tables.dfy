/**
 * What holds of the five tables between operations: unique keys, unique
 * emails, every stored id below the next fresh key, and (where callers keep
 * it) foreign keys that point at existing rows; with the lemmas showing that
 * each kind of write keeps it.
 */
module Tables {
  import opened Wrappers
  import opened Models
  import opened Repository
  import Groups
  import Expenses

  /** A key not below `n` and above every id in `ids`: like `uuid4`, it collides with nothing in use. */
  function Fresh(n: Id, ids: seq<Id>): (r: Id)
    ensures r >= n
    ensures forall i :: i in ids ==> i < r
  {
    if ids == [] then n
    else
      var rest := Fresh(n, ids[1..]);
      assert forall i :: i in ids ==> i == ids[0] || i in ids[1..];
      if ids[0] + 1 > rest then ids[0] + 1 else rest
  }

  /** The debtors named by a request's split entries, in order. */
  function EntryUsers(entries: seq<SplitEntry>): (r: seq<Id>)
    ensures |r| == |entries| && forall i :: 0 <= i < |entries| ==> r[i] == entries[i].userId
  {
    seq(|entries|, i requires 0 <= i < |entries| => entries[i].userId)
  }

  /** Column `col` stays below a bound that grows. */
  lemma BelowGrow<T(!new)>(rows: seq<T>, col: T -> Id, n: Id, m: Id)
    requires Below(rows, col, n) && n <= m
    ensures Below(rows, col, m)
  {
  }

  /** Appending a row whose `col` is below the new bound keeps the column below it. */
  lemma BelowAppend<T(!new)>(rows: seq<T>, col: T -> Id, x: T, n: Id, m: Id)
    requires Below(rows, col, n) && n <= m && col(x) < m
    ensures Below(rows + [x], col, m)
  {
    forall y | y in rows + [x] ensures col(y) < m {
      if y != x { assert y in rows; }
    }
  }

  /** Appending a row keyed at or above the old bound keeps keys unique and below the new bound. */
  lemma KeyAppend<T(!new)>(rows: seq<T>, key: T -> Id, x: T, n: Id, m: Id)
    requires KeysUnique(rows, key) && Below(rows, key, n) && n <= key(x) < m
    ensures KeysUnique(rows + [x], key) && Below(rows + [x], key, m)
  {
    AppendNewKey(rows, key, x);
    BelowAppend(rows, key, x, n, m);
  }

  ghost predicate UsersOk(users: seq<User>, n: Id) {
    KeysUnique(users, UserKey) && KeysUnique(users, UserEmail) && Below(users, UserKey, n)
  }

  ghost predicate GroupsOk(groups: seq<Group>, n: Id) {
    KeysUnique(groups, GroupKey) && Below(groups, GroupKey, n)
  }

  ghost predicate MembersOk(members: seq<GroupMember>, n: Id) {
    && KeysUnique(members, MemberKey) && Below(members, MemberKey, n)
    && Below(members, MemberUser, n) && Below(members, MemberGroup, n)
  }

  ghost predicate ExpensesOk(expenses: seq<Expense>, n: Id) {
    && KeysUnique(expenses, ExpenseKey) && Below(expenses, ExpenseKey, n)
    && Below(expenses, ExpensePayer, n) && Below(expenses, ExpenseGroup, n)
  }

  ghost predicate SplitsOk(splits: seq<ExpenseSplit>, n: Id) {
    && KeysUnique(splits, SplitKey) && Below(splits, SplitKey, n)
    && Below(splits, SplitExpense, n) && Below(splits, SplitDebtor, n)
  }

  /** The invariant of the whole store: every table's, for one id bound. */
  ghost predicate Ok(users: seq<User>, groups: seq<Group>, members: seq<GroupMember>,
                     expenses: seq<Expense>, splits: seq<ExpenseSplit>, n: Id) {
    && UsersOk(users, n) && GroupsOk(groups, n) && MembersOk(members, n)
    && ExpensesOk(expenses, n) && SplitsOk(splits, n)
  }

  /** Raising the id bound keeps every table's invariant. */
  lemma TablesGrow(users: seq<User>, groups: seq<Group>, members: seq<GroupMember>,
                   expenses: seq<Expense>, splits: seq<ExpenseSplit>, n: Id, m: Id)
    requires n <= m
    ensures UsersOk(users, n) ==> UsersOk(users, m)
    ensures GroupsOk(groups, n) ==> GroupsOk(groups, m)
    ensures MembersOk(members, n) ==> MembersOk(members, m)
    ensures ExpensesOk(expenses, n) ==> ExpensesOk(expenses, m)
    ensures SplitsOk(splits, n) ==> SplitsOk(splits, m)
  {
  }

  lemma MemberAppend(members: seq<GroupMember>, x: GroupMember, n: Id, m: Id)
    requires MembersOk(members, n) && n <= x.id < m && x.userId < m && x.groupId < m
    ensures MembersOk(members + [x], m)
  {
    KeyAppend(members, MemberKey, x, n, m);
    BelowAppend(members, MemberUser, x, n, m);
    BelowAppend(members, MemberGroup, x, n, m);
  }

  lemma ExpenseAppend(expenses: seq<Expense>, x: Expense, n: Id, m: Id)
    requires ExpensesOk(expenses, n) && n <= x.id < m && x.userId < m && x.groupId < m
    ensures ExpensesOk(expenses + [x], m)
  {
    KeyAppend(expenses, ExpenseKey, x, n, m);
    BelowAppend(expenses, ExpensePayer, x, n, m);
    BelowAppend(expenses, ExpenseGroup, x, n, m);
  }

  lemma SplitAppend(splits: seq<ExpenseSplit>, x: ExpenseSplit, n: Id, m: Id)
    requires SplitsOk(splits, n) && n <= x.id < m && x.expenseId < m && x.userId < m
    ensures SplitsOk(splits + [x], m)
  {
    KeyAppend(splits, SplitKey, x, n, m);
    BelowAppend(splits, SplitExpense, x, n, m);
    BelowAppend(splits, SplitDebtor, x, n, m);
  }

  /** Some row of `rows` has key `id`. */
  ghost predicate Has<T(!new)>(rows: seq<T>, key: T -> Id, id: Id) {
    exists x :: x in rows && key(x) == id
  }

  /** Every foreign key of the membership, expense and split tables names an existing row. */
  ghost predicate Resolves(users: seq<User>, groups: seq<Group>, members: seq<GroupMember>,
                           expenses: seq<Expense>, splits: seq<ExpenseSplit>) {
    && (forall m :: m in members ==> Has(users, UserKey, m.userId) && Has(groups, GroupKey, m.groupId))
    && (forall e :: e in expenses ==> Has(users, UserKey, e.userId) && Has(groups, GroupKey, e.groupId))
    && (forall s :: s in splits ==> Has(expenses, ExpenseKey, s.expenseId) && Has(users, UserKey, s.userId))
  }

  lemma HasAppend<T(!new)>(rows: seq<T>, key: T -> Id, x: T)
    ensures forall id :: Has(rows, key, id) ==> Has(rows + [x], key, id)
    ensures Has(rows + [x], key, key(x))
  {
    forall id | Has(rows, key, id) ensures Has(rows + [x], key, id) {
      var y :| y in rows && key(y) == id;
      assert y in rows + [x];
    }
    assert x in rows + [x];
  }

  lemma ResolvesNewUser(users: seq<User>, groups: seq<Group>, members: seq<GroupMember>,
                        expenses: seq<Expense>, splits: seq<ExpenseSplit>, x: User)
    ensures Resolves(users, groups, members, expenses, splits)
            ==> Resolves(users + [x], groups, members, expenses, splits)
  {
    HasAppend(users, UserKey, x);
  }

  lemma ResolvesNewGroup(users: seq<User>, groups: seq<Group>, members: seq<GroupMember>,
                         expenses: seq<Expense>, splits: seq<ExpenseSplit>, x: Group)
    ensures Resolves(users, groups, members, expenses, splits)
            ==> Resolves(users, groups + [x], members, expenses, splits)
  {
    HasAppend(groups, GroupKey, x);
  }

  lemma ResolvesNewMember(users: seq<User>, groups: seq<Group>, members: seq<GroupMember>,
                          expenses: seq<Expense>, splits: seq<ExpenseSplit>, x: GroupMember)
    ensures Resolves(users, groups, members, expenses, splits) && Has(users, UserKey, x.userId) && Has(groups, GroupKey, x.groupId)
            ==> Resolves(users, groups, members + [x], expenses, splits)
  {
  }

  lemma ResolvesNewExpense(users: seq<User>, groups: seq<Group>, members: seq<GroupMember>,
                           expenses: seq<Expense>, splits: seq<ExpenseSplit>, x: Expense)
    ensures Resolves(users, groups, members, expenses, splits) && Has(users, UserKey, x.userId) && Has(groups, GroupKey, x.groupId)
            ==> Resolves(users, groups, members, expenses + [x], splits)
  {
    HasAppend(expenses, ExpenseKey, x);
  }

  lemma ResolvesNewSplit(users: seq<User>, groups: seq<Group>, members: seq<GroupMember>,
                         expenses: seq<Expense>, splits: seq<ExpenseSplit>, x: ExpenseSplit)
    ensures Resolves(users, groups, members, expenses, splits) && Has(expenses, ExpenseKey, x.expenseId) && Has(users, UserKey, x.userId)
            ==> Resolves(users, groups, members, expenses, splits + [x])
  {
  }

  /**
   * The rows the relationships `User.groups` and `User.expenses` load for user
   * `id`. Deleting a parent makes the ORM write NULL into their NOT NULL
   * foreign keys, so the commit fails while any exists.
   */
  predicate UserHasChildren(members: seq<GroupMember>, expenses: seq<Expense>, id: Id) {
    (exists m :: m in members && m.userId == id) || (exists e :: e in expenses && e.userId == id)
  }

  /** The rows `Group.members` and `Group.expenses` load for group `id`. */
  predicate GroupHasChildren(members: seq<GroupMember>, expenses: seq<Expense>, id: Id) {
    (exists m :: m in members && m.groupId == id) || (exists e :: e in expenses && e.groupId == id)
  }

  /** The rows `Expense.splits` loads for expense `id`. */
  predicate ExpenseHasChildren(splits: seq<ExpenseSplit>, id: Id) {
    exists s :: s in splits && s.expenseId == id
  }

  /** Deleting key `id` keeps every other key present. */
  lemma HasDeleted<T(!new)>(rows: seq<T>, key: T -> Id, id: Id)
    ensures forall x :: x != id && Has(rows, key, x) ==> Has(Deleted(rows, key, id), key, x)
  {
    forall x | x != id && Has(rows, key, x) ensures Has(Deleted(rows, key, id), key, x) {
      var y :| y in rows && key(y) == x;
      assert y in Deleted(rows, key, id);
    }
  }

  /** A user no membership, expense or split names can go without leaving a dangling reference. */
  lemma ResolvesUserDeleted(users: seq<User>, groups: seq<Group>, members: seq<GroupMember>,
                            expenses: seq<Expense>, splits: seq<ExpenseSplit>, id: Id)
    ensures (Resolves(users, groups, members, expenses, splits) && !UserHasChildren(members, expenses, id)
             && forall s :: s in splits ==> s.userId != id)
            ==> Resolves(Deleted(users, UserKey, id), groups, members, expenses, splits)
  {
    HasDeleted(users, UserKey, id);
  }

  /** A group no membership or expense names can go without leaving a dangling reference. */
  lemma ResolvesGroupDeleted(users: seq<User>, groups: seq<Group>, members: seq<GroupMember>,
                             expenses: seq<Expense>, splits: seq<ExpenseSplit>, id: Id)
    ensures (Resolves(users, groups, members, expenses, splits) && !GroupHasChildren(members, expenses, id))
            ==> Resolves(users, Deleted(groups, GroupKey, id), members, expenses, splits)
  {
    HasDeleted(groups, GroupKey, id);
  }

  /** An expense no split names can go without leaving a dangling reference. */
  lemma ResolvesExpenseDeleted(users: seq<User>, groups: seq<Group>, members: seq<GroupMember>,
                               expenses: seq<Expense>, splits: seq<ExpenseSplit>, id: Id)
    ensures (Resolves(users, groups, members, expenses, splits) && !ExpenseHasChildren(splits, id))
            ==> Resolves(users, groups, members, Deleted(expenses, ExpenseKey, id), splits)
  {
    HasDeleted(expenses, ExpenseKey, id);
  }

  /** Deleting a user keeps ids and emails unique; an existing key loses exactly its one row. */
  lemma UsersDeleted(users: seq<User>, id: Id, n: Id)
    requires UsersOk(users, n)
    ensures UsersOk(Deleted(users, UserKey, id), n)
    ensures Has(users, UserKey, id) ==> |Deleted(users, UserKey, id)| == |users| - 1
    ensures Get(Deleted(users, UserKey, id), UserKey, id) == Success(None)
  {
    DeletedSpec(users, UserKey, id);
    WhereKeysUnique(users, UserEmail, KeyIsNot(UserKey, id));
    if Has(users, UserKey, id) {
      DeletedLength(users, UserKey, id);
    }
  }

  lemma GroupsDeleted(groups: seq<Group>, id: Id, n: Id)
    requires GroupsOk(groups, n)
    ensures GroupsOk(Deleted(groups, GroupKey, id), n)
    ensures Has(groups, GroupKey, id) ==> |Deleted(groups, GroupKey, id)| == |groups| - 1
    ensures Get(Deleted(groups, GroupKey, id), GroupKey, id) == Success(None)
  {
    DeletedSpec(groups, GroupKey, id);
    if Has(groups, GroupKey, id) {
      DeletedLength(groups, GroupKey, id);
    }
  }

  lemma ExpensesDeleted(expenses: seq<Expense>, id: Id, n: Id)
    requires ExpensesOk(expenses, n)
    ensures ExpensesOk(Deleted(expenses, ExpenseKey, id), n)
    ensures Has(expenses, ExpenseKey, id) ==> |Deleted(expenses, ExpenseKey, id)| == |expenses| - 1
    ensures Get(Deleted(expenses, ExpenseKey, id), ExpenseKey, id) == Success(None)
  {
    DeletedSpec(expenses, ExpenseKey, id);
    if Has(expenses, ExpenseKey, id) {
      DeletedLength(expenses, ExpenseKey, id);
    }
  }

  /** Overwriting a stored expense with references below the new bound keeps the table's invariant. */
  lemma ExpensesReplaced(expenses: seq<Expense>, r: Expense, n: Id, m: Id)
    requires ExpensesOk(expenses, n) && Has(expenses, ExpenseKey, r.id)
    requires n <= m && r.userId < m && r.groupId < m
    ensures ExpensesOk(Replaced(expenses, ExpenseKey, r), m)
    ensures Get(Replaced(expenses, ExpenseKey, r), ExpenseKey, r.id) == Success(Some(r))
  {
    ReplacedSpec(expenses, ExpenseKey, r);
  }

  /** The key chosen for a new expense lies above its payer, its group and every debtor it names. */
  lemma FreshForExpense(n: Id, payer: Id, group: Id, entries: seq<SplitEntry>)
    ensures var r := Fresh(n, [payer, group] + EntryUsers(entries));
      && r >= n && payer < r && group < r && forall x :: x in entries ==> x.userId < r
  {
    var ids := [payer, group] + EntryUsers(entries);
    assert ids[0] == payer && ids[1] == group && ids[0] in ids && ids[1] in ids;
    forall x | x in entries ensures x.userId < Fresh(n, ids) {
      var k :| 0 <= k < |entries| && entries[k] == x;
      assert ids[2 + k] == x.userId && ids[2 + k] in ids;
    }
  }

  /** Overwriting a stored user keeps ids and emails unique when no other user has the new email. */
  lemma UsersReplaced(users: seq<User>, updated: User, n: Id)
    requires UsersOk(users, n) && Has(users, UserKey, updated.id)
    requires forall x :: x in users && x.id != updated.id ==> x.email != updated.email
    ensures UsersOk(Replaced(users, UserKey, updated), n)
  {
    ReplacedSpec(users, UserKey, updated);
    var next := Replaced(users, UserKey, updated);
    forall i, j | 0 <= i < j < |next| ensures next[i].email != next[j].email {
      assert next[i] in next && next[j] in next;
      if next[i] != updated && next[j] != updated {
        assert next[i] == users[i] && next[j] == users[j];
      } else if next[i] == updated {
        assert next[j] == users[j] && users[j] in users;
      } else {
        assert next[i] == users[i] && users[i] in users;
      }
    }
  }

  /** The staged membership rows of a new group, keyed from `firstId` on, keep the table's invariant. */
  lemma MembersCommitted(members: seq<GroupMember>, firstId: Id, g: Id, uids: seq<Id>, n: Id)
    requires MembersOk(members, n) && n <= g < firstId && forall u :: u in uids ==> u < firstId
    ensures MembersOk(members + Groups.MembershipRows(firstId, g, uids), firstId + |uids|)
  {
    var more := Groups.MembershipRows(firstId, g, uids);
    KeysAppendRun(members, more, MemberKey, n, firstId);
    forall x | x in more ensures x.userId < firstId + |uids| && x.groupId < firstId + |uids| {
      var k :| 0 <= k < |more| && more[k] == x;
      assert uids[k] in uids;
    }
    BelowAppendRun(members, more, MemberUser, n, firstId + |uids|);
    BelowAppendRun(members, more, MemberGroup, n, firstId + |uids|);
  }

  /** The staged split rows of a new expense, keyed from `firstId` on, keep the table's invariant. */
  lemma SplitsCommitted(splits: seq<ExpenseSplit>, firstId: Id, expenseId: Id, entries: seq<SplitEntry>, n: Id)
    requires SplitsOk(splits, n) && n <= expenseId < firstId && forall x :: x in entries ==> x.userId < firstId
    ensures SplitsOk(splits + Expenses.SplitRows(firstId, expenseId, entries), firstId + |entries|)
  {
    var more := Expenses.SplitRows(firstId, expenseId, entries);
    KeysAppendRun(splits, more, SplitKey, n, firstId);
    forall x | x in more ensures x.expenseId < firstId + |entries| && x.userId < firstId + |entries| {
      var k :| 0 <= k < |more| && more[k] == x;
      assert entries[k] in entries;
    }
    BelowAppendRun(splits, more, SplitExpense, n, firstId + |entries|);
    BelowAppendRun(splits, more, SplitDebtor, n, firstId + |entries|);
  }

  /** A run of rows keyed `first`, `first + 1`, ... above every old key keeps the keys unique. */
  lemma KeysAppendRun<T(!new)>(rows: seq<T>, more: seq<T>, key: T -> Id, n: Id, first: Id)
    requires KeysUnique(rows, key) && Below(rows, key, n) && n <= first
    requires forall i :: 0 <= i < |more| ==> key(more[i]) == first + i
    ensures KeysUnique(rows + more, key) && Below(rows + more, key, first + |more|)
  {
    var r := rows + more;
    forall i, j | 0 <= i < j < |r| ensures key(r[i]) != key(r[j]) {
      if j < |rows| {
        assert r[i] == rows[i] && r[j] == rows[j];
      } else if i < |rows| {
        assert r[i] == rows[i] && rows[i] in rows && r[j] == more[j - |rows|];
      } else {
        assert r[i] == more[i - |rows|] && r[j] == more[j - |rows|];
      }
    }
    forall x | x in r ensures key(x) < first + |more| {
      if x !in rows {
        var k :| 0 <= k < |more| && more[k] == x;
      }
    }
  }

  /** Appending rows whose `col` is below the new bound keeps the column below it. */
  lemma BelowAppendRun<T(!new)>(rows: seq<T>, more: seq<T>, col: T -> Id, n: Id, m: Id)
    requires Below(rows, col, n) && n <= m && Below(more, col, m)
    ensures Below(rows + more, col, m)
  {
  }

  /** Membership rows of group `g` naming existing users keep every reference resolved. */
  lemma ResolvesNewMembers(users: seq<User>, groups: seq<Group>, members: seq<GroupMember>,
                           expenses: seq<Expense>, splits: seq<ExpenseSplit>, firstId: Id, g: Id, uids: seq<Id>)
    ensures Resolves(users, groups, members, expenses, splits) && Has(groups, GroupKey, g)
            && (forall u :: u in uids ==> Has(users, UserKey, u))
            ==> Resolves(users, groups, members + Groups.MembershipRows(firstId, g, uids), expenses, splits)
  {
    var more := Groups.MembershipRows(firstId, g, uids);
    forall x | x in more ensures x.groupId == g && x.userId in uids {
      var k :| 0 <= k < |more| && more[k] == x;
    }
  }

  /** Split rows of expense `expenseId` naming existing users keep every reference resolved. */
  lemma ResolvesNewSplits(users: seq<User>, groups: seq<Group>, members: seq<GroupMember>,
                          expenses: seq<Expense>, splits: seq<ExpenseSplit>, firstId: Id, expenseId: Id,
                          entries: seq<SplitEntry>)
    ensures Resolves(users, groups, members, expenses, splits) && Has(expenses, ExpenseKey, expenseId)
            && (forall x :: x in entries ==> Has(users, UserKey, x.userId))
            ==> Resolves(users, groups, members, expenses, splits + Expenses.SplitRows(firstId, expenseId, entries))
  {
    var more := Expenses.SplitRows(firstId, expenseId, entries);
    forall x | x in more ensures x.expenseId == expenseId && exists y :: y in entries && y.userId == x.userId {
      var k :| 0 <= k < |more| && more[k] == x;
      assert entries[k] in entries;
    }
  }

  /**
   * Listing the members of a group `create_group_with_members` just made,
   * keyed at or above the old id bound, gives back the requested ids, in
   * order and with repetitions.
   */
  lemma MembersOfCreatedGroup(members: seq<GroupMember>, n: Id, g: Group, memberIds: seq<Id>)
    requires MembersOk(members, n) && n <= g.id
    ensures Groups.GroupMembers(members + Groups.MembershipRows(g.id + 1, g.id, memberIds), g.id) == memberIds
  {
    assert forall m :: m in members ==> m.groupId != g.id;
    Groups.MembersOfNewGroup(members, g.id + 1, g.id, memberIds);
  }

  /** A group keyed by the next id is new: no row has its key, nothing refers to it, and the invariant holds one id on. */
  lemma NewGroupCreated(users: seq<User>, groups: seq<Group>, members: seq<GroupMember>,
                        expenses: seq<Expense>, splits: seq<ExpenseSplit>, n: Id, g: Group)
    requires Ok(users, groups, members, expenses, splits, n)
    requires g.id == n
    ensures Ok(users, groups + [g], members, expenses, splits, n + 1)
    ensures forall x :: x in groups ==> x.id != g.id
    ensures Groups.GroupMembers(members, g.id) == [] && Expenses.GroupExpenses(expenses, g.id) == []
    ensures Resolves(users, groups, members, expenses, splits)
            ==> Resolves(users, groups + [g], members, expenses, splits)
  {
    KeyAppend(groups, GroupKey, g, n, n + 1);
    TablesGrow(users, groups, members, expenses, splits, n, n + 1);
    WhereNone(members, Groups.MemberOfGroup(g.id));
    WhereNone(expenses, Expenses.InGroup(g.id));
    ResolvesNewGroup(users, groups, members, expenses, splits, g);
  }

  /** Committing a new group keyed `Fresh(n, memberIds)` and its staged memberships keeps the store's invariant. */
  lemma NewGroupCommitted(users: seq<User>, groups: seq<Group>, members: seq<GroupMember>,
                          expenses: seq<Expense>, splits: seq<ExpenseSplit>, n: Id, g: Group, memberIds: seq<Id>)
    requires Ok(users, groups, members, expenses, splits, n)
    requires g.id == Fresh(n, memberIds)
    ensures Ok(users, groups + [g], members + Groups.MembershipRows(g.id + 1, g.id, memberIds), expenses, splits,
               g.id + 1 + |memberIds|)
  {
    var m := g.id + 1 + |memberIds|;
    KeyAppend(groups, GroupKey, g, n, g.id + 1);
    BelowGrow(groups + [g], GroupKey, g.id + 1, m);
    MembersCommitted(members, g.id + 1, g.id, memberIds, n);
    TablesGrow(users, groups, members, expenses, splits, n, m);
  }

  /** A new group and memberships naming existing users keep every reference resolved. */
  lemma NewGroupResolves(users: seq<User>, groups: seq<Group>, members: seq<GroupMember>,
                         expenses: seq<Expense>, splits: seq<ExpenseSplit>, g: Group, memberIds: seq<Id>)
    ensures Resolves(users, groups, members, expenses, splits) && (forall u :: u in memberIds ==> Has(users, UserKey, u))
            ==> Resolves(users, groups + [g], members + Groups.MembershipRows(g.id + 1, g.id, memberIds), expenses, splits)
  {
    ResolvesNewGroup(users, groups, members, expenses, splits, g);
    HasAppend(groups, GroupKey, g);
    ResolvesNewMembers(users, groups + [g], members, expenses, splits, g.id + 1, g.id, memberIds);
  }

  /** Committing a new expense keyed by `Fresh` and its staged splits keeps the store's invariant. */
  lemma NewExpenseCommitted(users: seq<User>, groups: seq<Group>, members: seq<GroupMember>,
                            expenses: seq<Expense>, splits: seq<ExpenseSplit>, n: Id, e: Expense,
                            entries: seq<SplitEntry>)
    requires Ok(users, groups, members, expenses, splits, n)
    requires e.id == Fresh(n, [e.userId, e.groupId] + EntryUsers(entries))
    ensures e.id >= n && e.id != e.userId && e.id != e.groupId
    ensures Ok(users, groups, members, expenses + [e], splits + Expenses.SplitRows(e.id + 1, e.id, entries),
               e.id + 1 + |entries|)
  {
    var m := e.id + 1 + |entries|;
    FreshForExpense(n, e.userId, e.groupId, entries);
    ExpenseAppend(expenses, e, n, e.id + 1);
    SplitsCommitted(splits, e.id + 1, e.id, entries, n);
    TablesGrow(users, groups, members, expenses, splits, n, m);
    BelowGrow(expenses + [e], ExpenseKey, e.id + 1, m);
    BelowGrow(expenses + [e], ExpensePayer, e.id + 1, m);
    BelowGrow(expenses + [e], ExpenseGroup, e.id + 1, m);
  }

  /** A new expense and splits naming existing rows keep every reference resolved. */
  lemma NewExpenseResolves(users: seq<User>, groups: seq<Group>, members: seq<GroupMember>,
                           expenses: seq<Expense>, splits: seq<ExpenseSplit>, e: Expense, entries: seq<SplitEntry>)
    ensures Resolves(users, groups, members, expenses, splits)
            && Has(users, UserKey, e.userId) && Has(groups, GroupKey, e.groupId)
            && (forall x :: x in entries ==> Has(users, UserKey, x.userId))
            ==> Resolves(users, groups, members, expenses + [e], splits + Expenses.SplitRows(e.id + 1, e.id, entries))
  {
    ResolvesNewExpense(users, groups, members, expenses, splits, e);
    HasAppend(expenses, ExpenseKey, e);
    ResolvesNewSplits(users, groups, members, expenses + [e], splits, e.id + 1, e.id, entries);
  }
}
