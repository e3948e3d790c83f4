/**
 * The five tables of the ledger (app/models/models.py) as row values,
 * the request shapes the repositories read, and the per-row facts
 * (primary keys, the unique email column, the field assignments `update` may make).
 */
module Models {
  import opened Wrappers

  /** Primary and foreign keys: the UUIDs of the source, modelled as naturals. */
  type Id = nat

  /** `datetime` values are opaque here; the clock is a parameter of the creating methods. */
  type Timestamp = int

  /** Money (`float` in the source), in exact integer cents. */
  type Cents = int

  datatype User = User(id: Id, name: string, email: string, password: string, createdAt: Timestamp)

  datatype Group = Group(id: Id, name: string, description: Option<string>, createdAt: Timestamp)

  /** Links one user to one group; nothing makes the (userId, groupId) pair unique. */
  datatype GroupMember = GroupMember(id: Id, userId: Id, groupId: Id)

  /** One payer (`userId`) and one group per expense. */
  datatype Expense = Expense(id: Id, description: string, amount: Cents, date: Option<Timestamp>, userId: Id, groupId: Id)

  /** The share `amount` that debtor `userId` owes on expense `expenseId`. */
  datatype ExpenseSplit = ExpenseSplit(id: Id, expenseId: Id, userId: Id, amount: Cents)

  /** One entry of `ExpenseCreate.splits`: a (user_id, amount) pair. */
  datatype SplitEntry = SplitEntry(userId: Id, amount: Cents)

  /** The `ExpenseCreate` request: everything of an expense except its payer. */
  datatype ExpenseCreate = ExpenseCreate(description: string, amount: Cents, date: Option<Timestamp>, groupId: Id, splits: seq<SplitEntry>)

  /** An element `{"id": ..., "name": ...}` of a group listing. */
  datatype GroupRef = GroupRef(id: Id, name: string)

  /** The exceptions the core can raise, and the HTTP 400 of the user-creation route. */
  datatype Error =
    | MultipleResultsFound   // `scalar_one_or_none` on more than one row
    | UniqueViolation        // the store refuses a second user with the same email
    | EmailAlreadyRegistered // the guard of the user-creation route
    | AttributeError         // reading a field a row does not have
    | NotNullViolation       // a commit that writes NULL into a NOT NULL column

  // Column projections, passed to the generic repository functions.
  function UserKey(u: User): Id { u.id }
  function UserEmail(u: User): string { u.email }
  function GroupKey(g: Group): Id { g.id }
  function MemberKey(m: GroupMember): Id { m.id }
  function MemberUser(m: GroupMember): Id { m.userId }
  function MemberGroup(m: GroupMember): Id { m.groupId }
  function ExpenseKey(e: Expense): Id { e.id }
  function ExpensePayer(e: Expense): Id { e.userId }
  function ExpenseGroup(e: Expense): Id { e.groupId }
  function ExpenseAmount(e: Expense): Cents { e.amount }
  function SplitKey(s: ExpenseSplit): Id { s.id }
  function SplitExpense(s: ExpenseSplit): Id { s.expenseId }
  function SplitDebtor(s: ExpenseSplit): Id { s.userId }
  function SplitAmount(s: ExpenseSplit): Cents { s.amount }
  function EntryUser(x: SplitEntry): Id { x.userId }
  function EntryAmount(x: SplitEntry): Cents { x.amount }

  /** A field assignment of `update` on a user (`setattr(db_obj, field, value)`); keys are not assignable. */
  datatype UserField = SetName(name: string) | SetEmail(email: string) | SetPassword(password: string)

  function UserFieldKind(f: UserField): nat {
    match f
    case SetName(_) => 0
    case SetEmail(_) => 1
    case SetPassword(_) => 2
  }

  function SetUserAttr(u: User, f: UserField): User {
    match f
    case SetName(n) => u.(name := n)
    case SetEmail(e) => u.(email := e)
    case SetPassword(p) => u.(password := p)
  }

  /** A field assignment of `update` on a group. */
  datatype GroupField = SetGroupName(name: string) | SetDescription(description: Option<string>)

  function GroupFieldKind(f: GroupField): nat {
    match f
    case SetGroupName(_) => 0
    case SetDescription(_) => 1
  }

  function SetGroupAttr(g: Group, f: GroupField): Group {
    match f
    case SetGroupName(n) => g.(name := n)
    case SetDescription(d) => g.(description := d)
  }

  /** A field assignment of `update` on an expense. */
  datatype ExpenseField =
    | SetExpenseDescription(description: string)
    | SetAmount(amount: Cents)
    | SetDate(date: Option<Timestamp>)
    | SetPayer(userId: Id)
    | SetExpenseGroup(groupId: Id)

  function ExpenseFieldKind(f: ExpenseField): nat {
    match f
    case SetExpenseDescription(_) => 0
    case SetAmount(_) => 1
    case SetDate(_) => 2
    case SetPayer(_) => 3
    case SetExpenseGroup(_) => 4
  }

  function SetExpenseAttr(e: Expense, f: ExpenseField): Expense {
    match f
    case SetExpenseDescription(d) => e.(description := d)
    case SetAmount(a) => e.(amount := a)
    case SetDate(d) => e.(date := d)
    case SetPayer(u) => e.(userId := u)
    case SetExpenseGroup(g) => e.(groupId := g)
  }

  /** `obj_in.dict(exclude_unset=True)` names each field at most once. */
  ghost predicate DistinctKinds<F>(fields: seq<F>, kind: F -> nat) {
    forall i, j :: 0 <= i < j < |fields| ==> kind(fields[i]) != kind(fields[j])
  }
}
