# split_wise ledger — a Dafny model of the repository layer

split_wise is a small expense-sharing service. Users belong to groups. A
user pays for an expense of a group, and the expense is split into shares
owed by users. The service stores five tables: users, groups, group
memberships, expenses and expense splits. Its repository classes read and
write those tables, and they compute a user's balance in a group: what the
user paid minus what the user owes.

This project models that repository layer as one in-memory store
(`Store.Ledger`). The store holds the five tables as sequences of rows, plus
a counter that hands out fresh primary keys.

- `Models` holds the row types of app/models/models.py. Money is exact
  integer cents. Keys are naturals.
- `Repository` holds the generic repository of app/repositories/base.py:
  - the `select ... where` filter (`Where`);
  - `scalar_one_or_none`, `get` and `get_all`;
  - the field-assignment loop of `update`;
  - the tables after a delete or an update.
- `Users`, `Groups` and `Expenses` hold the pure queries of the three
  concrete repositories:
  - the email lookup;
  - `get_user_groups`, as written and as intended;
  - the member listing and the `add_member` step;
  - the expense filters and the balance, with its lemmas.
- `Tables` states the store's invariant:
  - primary keys are unique in each table;
  - emails are unique;
  - every stored id is below the counter.

  It also defines the optional "references resolve" property, where every
  foreign key points at an existing row. The lemmas there show that each
  write keeps these properties.
- `Store.Ledger` is the class whose methods write rows:
  - user creation, with the duplicate-email guard of the user-creation route;
  - group creation, with and without members;
  - `add_member`;
  - expense creation with its splits;
  - `update` and `delete`.

  Each method states the whole new state in terms of the old one.

## Model

| member | source | states |
|---|---|---|
| Repository.Where | app/repositories/base.py:12-14 | a query with a condition returns a row exactly when the table holds it and the condition holds, and never more rows than the table |
| Repository.WhereCount | app/repositories/expense.py:37-45 | a row matching the condition occurs in the result exactly as often as in the table (duplicates are kept) |
| Repository.ScalarOneOrNone | app/repositories/base.py:15 | no row gives `None`, exactly one row gives that row, and more than one raises `MultipleResultsFound` |
| Repository.Get | app/repositories/base.py:12-15 | a found row is in the table and has the key; `None` exactly when no row has the key; with unique keys it never raises and returns the row with that key |
| Repository.GetAll | app/repositories/base.py:17-20 | the unconditioned query returns every row of the table and nothing else (in the model's table order; the source's query has no `ORDER BY` and promises no order) |
| Repository.AssignAll | app/repositories/base.py:29-31 | the `setattr` loop gives the row with the named fields assigned one after the other |
| Repository.AssignmentsHold | app/repositories/base.py:29-31 | after the loop, every field assignment named in `obj_in` holds in the row (fields named once each) |
| Repository.UserUntouched | app/repositories/base.py:29-31 | a user update keeps the key, the creation time and every field it does not name |
| Repository.GroupUntouched | app/repositories/base.py:29-31 | a group update keeps the key, the creation time and every field it does not name |
| Repository.ExpenseUntouched | app/repositories/base.py:29-31 | an expense update keeps the key and every field it does not name |
| Repository.DeletedSpec | app/repositories/base.py:37-43 | after a delete, `get(id)` finds nothing, every other row stays, keys stay unique, and `get` of any other key is unchanged |
| Repository.DeletedLength | app/repositories/base.py:37-42 | deleting an existing key removes exactly one row |
| Repository.ReplacedSpec | app/repositories/base.py:29-35 | after an update, the table has the same length, unique keys, `get` returns the new row, and every other row stays |
| Users.GetByEmail | app/repositories/user.py:12-15 | a found user has the email; `None` exactly when no user has it; never raises while emails are unique |
| Users.GetUserGroups | app/repositories/user.py:28-34 | as written: an unknown user gives `[]`; a known user with a membership row raises `AttributeError`; any success is `[]` |
| Users.UserGroups | app/repositories/user.py:28-34 | as intended: `[]` for an unknown user; for a known user, exactly the (id, name) of each group with a membership row for the user |
| Users.GetUserGroupsFailsForMember | app/repositories/user.py:33 | a user with one membership row makes the code as written raise, while the intended result lists that group |
| Groups.GroupMembersSpec | app/repositories/group.py:33-37 | `get_group_members` lists one id per membership row of the group, and exactly the users that have such a row |
| Groups.MembersOfNewGroup | app/repositories/group.py:23-37 | listing a fresh group after its membership rows are added gives back the requested ids, with repetitions, in the model's table order (the source's query has no `ORDER BY`) |
| Groups.AddMemberStep | app/repositories/group.py:39-55 | `True` and one new (g, u) row exactly when no (g, u) row exists; `False` and no change exactly when one exists; `MultipleResultsFound` and no change exactly when several exist |
| Groups.AddMemberIdempotent | app/repositories/group.py:39-55 | after a successful `add_member`, a second call answers `False` and adds nothing; the user is then listed in the group, and at most one row was added |
| Expenses.GroupExpenses | app/repositories/expense.py:37-40 | exactly the expenses of the group, each as often as in the table |
| Expenses.UserExpenses | app/repositories/expense.py:42-45 | exactly the expenses paid by the user, each as often as in the table |
| Expenses.Balance | app/repositories/expense.py:47-68 | the balance is zero when the user paid nothing in the group and owes no split joined to the group |
| Expenses.SplitRowsShare | app/repositories/expense.py:26-32 | the split rows built from the request's entries make a user owe exactly that user's shares in the request |
| Expenses.BalanceAfterExpense | app/repositories/expense.py:12-68 | after a new expense and its splits, a balance in the expense's group moves by what the user paid on it minus the user's shares; balances in other groups do not move |
| Expenses.BalanceIsLocal | app/repositories/expense.py:49-62 | a balance in a group depends only on that group's expenses and the splits joined to them |
| Expenses.BalancesSumToZero | app/repositories/expense.py:65-68 | when every expense of the group is split exactly and the listed users (each once) include every payer and debtor in the group, their balances sum to zero |
| Tables.Fresh | app/models/models.py:12 | a fresh key is at least the counter and above every id it must avoid, standing in for `uuid4` never colliding |
| Tables.NewGroupCreated | app/models/models.py:21-25 | a group keyed by the counter collides with no key, keeps the invariant, has no members and no expenses, and keeps references resolved |
| Tables.MembersOfCreatedGroup | app/repositories/group.py:12-37 | in a valid store, the members listed for a group created with `member_ids` are exactly `member_ids`, repetitions kept, in the model's table order (the source's query has no `ORDER BY`) |
| Tables.NewGroupCommitted | app/repositories/group.py:12-31 | committing a new group and its membership rows keeps keys unique and all ids below the new counter |
| Tables.NewExpenseCommitted | app/repositories/expense.py:12-35 | committing a new expense and its split rows keeps keys unique and all ids below the new counter; the expense's key differs from its payer and group |
| Store.Ledger.constructor | app/models/models.py:6-52 | the empty store satisfies the invariant and its references resolve |
| Store.Ledger.CreateUser | app/repositories/user.py:17-26 | a unique-email violation exactly when the email is taken, with no change; otherwise one user is appended with the fields copied verbatim, a fresh key and the given creation time, and nothing else changes |
| Store.Ledger.RegisterUser | app/main.py:24-27 | "Email already registered" exactly when `get_by_email` finds the email, with no change; otherwise one user is appended with the fields copied verbatim, a fresh key and the given creation time, the counter moves on by one and nothing else changes, so emails stay unique |
| Store.Ledger.CreateGroup | app/repositories/base.py:22-27 | one group is appended with a fresh key; it has no members and no expenses, and nothing else changes |
| Store.Ledger.DeleteUser | app/repositories/base.py:37-43 | `False` and no change exactly when no user has the key; a failed commit (`NotNullViolation`) and no change exactly when the user has membership rows or paid expenses, whose NOT NULL `user_id` the ORM would null; otherwise `True` and exactly that row is gone; references stay resolved unless a split names the user |
| Store.Ledger.DeleteGroup | app/repositories/base.py:37-43 | `False` and no change exactly when no group has the key; `NotNullViolation` and no change exactly when membership rows or expenses name the group; otherwise `True`, exactly that row is gone, and references stay resolved |
| Store.Ledger.DeleteExpense | app/repositories/base.py:37-43 | `False` and no change exactly when no expense has the key; `NotNullViolation` and no change exactly when splits name the expense; otherwise `True`, exactly that row is gone, and references stay resolved |
| Tables.ResolvesUserDeleted | app/models/models.py:14-15 | removing a user that no membership, expense or split names leaves no dangling reference |
| Tables.ResolvesGroupDeleted | app/models/models.py:24-25 | removing a group that no membership or expense names leaves no dangling reference |
| Tables.ResolvesExpenseDeleted | app/models/models.py:45 | removing an expense that no split names leaves no dangling reference |
| Store.Ledger.UpdateUser | app/repositories/base.py:29-35 | the row with the named fields assigned replaces the stored one, unless another user has its new email, in which case nothing changes |
| Store.Ledger.UpdateGroup | app/repositories/base.py:29-35 | the row with the named fields assigned replaces the stored one, `get` returns it, and nothing else changes |
| Store.Ledger.UpdateExpense | app/repositories/base.py:29-35 | a failed commit (`NotNullViolation`) and no change exactly when the assignments leave the NOT NULL `date` unset; otherwise the row with the named fields assigned replaces the stored one, `get` returns it, and nothing else changes |
| Store.Ledger.CreateGroupWithMembers | app/repositories/group.py:12-31 | one group with the given name and description is appended, then one membership row per id, in the order of `member_ids` and duplicates kept; nothing else changes |
| Store.Ledger.AddMember | app/repositories/group.py:39-55 | the outcome and the new membership table are those of `Groups.AddMemberStep`, and nothing else changes |
| Store.Ledger.CreateExpenseWithSplits | app/repositories/expense.py:12-35 | a failed first commit (`NotNullViolation`) and no change exactly when the request has no date, which is passed on as NULL into the NOT NULL `date` column; otherwise one expense is appended with the request's fields and the given payer and is returned, then one split row per entry, in the order of the entries, referring to it; nothing else changes, and nothing else is validated |
| Store.Ledger.InsertExpenseWithSplits | app/repositories/expense.py:14-35 | for a dated request: one expense with the request's fields and the payer, then one split row per entry in the order of the entries, with fresh keys; nothing else changes |

## Left out

- Async sessions, `commit` and `refresh` are not modelled. Each operation is one atomic step, so the half-written state between the two commits of `create_group_with_members` and `create_expense_with_splits` is not modelled.
- Amounts are `float` in the source. They are exact integer cents here, so rounding is not modelled.
- `uuid4` keys are a counter. It stays above every id stored anywhere, including ids that callers pass in.
- Timestamps and the clock are parameters.
- Foreign keys are declared but not enforced by the store. `ReferencesResolve` is a separate property, kept only when the caller names existing rows.
- ORM relationships and lazy loading are not modelled. Relationships are lookups by foreign key.
- Store.Ledger.DeleteUser: the store follows the default SQLite database, which does not enforce foreign keys. A user named only by splits (which no relationship of `User` loads) is deleted and those splits dangle; on a database that enforces foreign keys that delete would fail as well.
- Only the user, group and expense repositories extend `BaseRepository`; the membership and split tables have no repository and are written only by `create_group_with_members`, `add_member` and `create_expense_with_splits`. The inherited `get` and `get_all` of the three repositories are the generic `Repository.Get` and `Repository.GetAll` applied to the table.
- The inherited `create` on expenses is not a separate method either. Expenses are created through `create_expense_with_splits`.
- Password hashing is absent in the source and is absent here too.
- The HTTP layer is not modelled: routes, status codes, request validation and the `{"id": ...}` dictionaries. Only the duplicate-email check of the user-creation route is modelled.
- Store.Ledger.CreateExpenseWithSplits: its `ensures` does not state how balances move. `Expenses.BalanceAfterExpense` states it for exactly the tables the method produces: the expense and split tables it ensures.
- Store.Ledger.UpdateUser: the row is a value, not a shared object. The in-place `setattr` on `db_obj` that other holders of that object would see is not modelled. The same applies to `UpdateGroup` and `UpdateExpense`.
- Store.Ledger.UpdateUser: keys and creation times cannot be assigned. The request schemas do not carry them.
- Users.GetUserGroups: a lazy load in an async session may fail before the `.name` access. The model reports the `.name` failure only.
- Duplicate ids in `member_ids` produce duplicate membership rows. The code has no uniqueness constraint on (user, group) pairs, and the model follows the code, not the specification's description of a constraint violation.

## Findings

| source | as written | input that shows it | evidently intended | confidence | as-written member | corrected member |
|---|---|---|---|---|---|---|
| app/repositories/user.py:33 | iterates `user.groups`, which holds the user's GroupMember rows (app/models/models.py:15), and reads `.name`, a field GroupMember lacks | user 1 with one membership row (id 3, user 1, group 2) | the (id, name) of each group the user belongs to | not executed | Users.GetUserGroupsFailsForMember | Users.UserGroups |
