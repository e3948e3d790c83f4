/** The expense queries and the balance of app/repositories/expense.py. */
module Expenses {
  import opened Models
  import opened Repository

  function InGroup(g: Id): Expense -> bool { (e: Expense) => e.groupId == g }

  function PaidBy(u: Id): Expense -> bool { (e: Expense) => e.userId == u }

  /** `get_group_expenses`: exactly the expenses of group `g`, in table order. */
  function GroupExpenses(expenses: seq<Expense>, g: Id): (r: seq<Expense>)
    ensures forall e :: e in r <==> e in expenses && e.groupId == g
    ensures forall e: Expense :: e.groupId == g ==> multiset(r)[e] == multiset(expenses)[e]
  {
    WhereCount(expenses, InGroup(g));
    Where(expenses, InGroup(g))
  }

  /** `get_user_expenses`: exactly the expenses paid by `u`, in table order. */
  function UserExpenses(expenses: seq<Expense>, u: Id): (r: seq<Expense>)
    ensures forall e :: e in r <==> e in expenses && e.userId == u
    ensures forall e: Expense :: e.userId == u ==> multiset(r)[e] == multiset(expenses)[e]
  {
    WhereCount(expenses, PaidBy(u));
    Where(expenses, PaidBy(u))
  }

  /** Python's `sum(x.amount for x in rows)`. */
  function Sum<T>(rows: seq<T>, amount: T -> Cents): Cents {
    if rows == [] then 0 else amount(rows[0]) + Sum(rows[1..], amount)
  }

  /** The rows whose `owner` column is `u` and that satisfy `base`. */
  function OwnedBy<T(!new)>(owner: T -> Id, u: Id, base: T -> bool): T -> bool {
    x => owner(x) == u && base(x)
  }

  /** The rows whose `owner` column is one of `us` and that satisfy `base`. */
  function OwnedByAny<T(!new)>(owner: T -> Id, us: seq<Id>, base: T -> bool): T -> bool {
    x => owner(x) in us && base(x)
  }

  /** The join `ExpenseSplit JOIN Expense ... WHERE Expense.group_id == g`: the split's expense is in `g`. */
  function JoinsGroup(expenses: seq<Expense>, g: Id): ExpenseSplit -> bool {
    (s: ExpenseSplit) => exists e :: e in expenses && e.id == s.expenseId && e.groupId == g
  }

  /** The splits of one expense. */
  function SplitsOf(expenseId: Id): ExpenseSplit -> bool {
    OwnedBy(SplitExpense, expenseId, Anything())
  }

  /** `total_paid`: what `u` paid for expenses of group `g`. */
  function TotalPaid(expenses: seq<Expense>, u: Id, g: Id): Cents {
    Sum(Where(expenses, OwnedBy(ExpensePayer, u, InGroup(g))), ExpenseAmount)
  }

  /** `total_share`: what `u` owes on splits of expenses of group `g`. */
  function TotalOwed(expenses: seq<Expense>, splits: seq<ExpenseSplit>, u: Id, g: Id): Cents {
    Sum(Where(splits, OwedBy(expenses, u, g)), SplitAmount)
  }

  /** `get_user_balance`: paid minus owed, recomputed from the rows; zero without activity. */
  function Balance(expenses: seq<Expense>, splits: seq<ExpenseSplit>, u: Id, g: Id): (b: Cents)
    ensures (forall e :: e in expenses ==> !(e.userId == u && e.groupId == g))
         && (forall s :: s in splits ==> !(s.userId == u && JoinsGroup(expenses, g)(s)))
         ==> b == 0
  {
    WhereEmpty(expenses, OwnedBy(ExpensePayer, u, InGroup(g)));
    WhereEmpty(splits, OwedBy(expenses, u, g));
    TotalPaid(expenses, u, g) - TotalOwed(expenses, splits, u, g)
  }

  /** The split rows `create_expense_with_splits` adds: one per entry, ids numbered from `firstId`. */
  function SplitRows(firstId: Id, expenseId: Id, entries: seq<SplitEntry>): seq<ExpenseSplit> {
    seq(|entries|, i requires 0 <= i < |entries| => ExpenseSplit(firstId + i, expenseId, entries[i].userId, entries[i].amount))
  }

  /** Staging one more entry appends its split row. */
  lemma SplitRowsSnoc(firstId: Id, expenseId: Id, entries: seq<SplitEntry>, i: nat)
    requires i < |entries|
    ensures SplitRows(firstId, expenseId, entries[..i + 1])
         == SplitRows(firstId, expenseId, entries[..i]) + [ExpenseSplit(firstId + i, expenseId, entries[i].userId, entries[i].amount)]
  {
  }

  function EntryFor(u: Id): SplitEntry -> bool { (x: SplitEntry) => x.userId == u }

  /** The shares of `u` among the split entries of one request. */
  function Share(entries: seq<SplitEntry>, u: Id): Cents {
    Sum(Where(entries, EntryFor(u)), EntryAmount)
  }

  /** How one new expense moves a balance: the payer gains the amount, each debtor loses their shares, in its group only. */
  function Shift(e: Expense, entries: seq<SplitEntry>, u: Id, g: Id): Cents {
    (if e.groupId == g && e.userId == u then e.amount else 0) - (if e.groupId == g then Share(entries, u) else 0)
  }

  // ----- sums -----

  lemma {:induction false} SumConcat<T>(a: seq<T>, b: seq<T>, amount: T -> Cents)
    ensures Sum(a + b, amount) == Sum(a, amount) + Sum(b, amount)
  {
    if a == [] {
      assert a + b == b;
    } else {
      assert (a + b)[1..] == a[1..] + b;
      SumConcat(a[1..], b, amount);
    }
  }

  /** Summing the rows of two disjoint conditions separately is summing the rows of either. */
  lemma {:induction false} SumWhereUnion<T(!new)>(rows: seq<T>, amount: T -> Cents, p: T -> bool, q: T -> bool, either: T -> bool)
    requires forall x :: x in rows ==> (either(x) <==> p(x) || q(x)) && !(p(x) && q(x))
    ensures Sum(Where(rows, either), amount) == Sum(Where(rows, p), amount) + Sum(Where(rows, q), amount)
  {
    if rows != [] {
      assert rows[0] in rows;
      assert forall x :: x in rows[1..] ==> x in rows;
      SumWhereUnion(rows[1..], amount, p, q, either);
      var x := rows[0];
      var hE := if either(x) then [x] else [];
      var hP := if p(x) then [x] else [];
      var hQ := if q(x) then [x] else [];
      SumConcat(hE, Where(rows[1..], either), amount);
      SumConcat(hP, Where(rows[1..], p), amount);
      SumConcat(hQ, Where(rows[1..], q), amount);
    }
  }

  /** The sum over a list of owners of each owner's rows. */
  function SumOverOwners<T(!new)>(rows: seq<T>, amount: T -> Cents, owner: T -> Id, base: T -> bool, us: seq<Id>): Cents {
    if us == [] then 0
    else Sum(Where(rows, OwnedBy(owner, us[0], base)), amount) + SumOverOwners(rows, amount, owner, base, us[1..])
  }

  ghost predicate Distinct(us: seq<Id>) {
    forall i, j :: 0 <= i < j < |us| ==> us[i] != us[j]
  }

  /** Adding up per-owner sums over distinct owners sums each row of those owners once. */
  lemma {:induction false} SumOverOwnersIsFiltered<T(!new)>(rows: seq<T>, amount: T -> Cents, owner: T -> Id, base: T -> bool, us: seq<Id>)
    requires Distinct(us)
    ensures SumOverOwners(rows, amount, owner, base, us) == Sum(Where(rows, OwnedByAny(owner, us, base)), amount)
  {
    if us == [] {
      WhereNone(rows, OwnedByAny(owner, us, base));
    } else {
      var rest := us[1..];
      assert Distinct(rest) by {
        forall i, j | 0 <= i < j < |rest| ensures rest[i] != rest[j] {
          assert rest[i] == us[i + 1] && rest[j] == us[j + 1];
        }
      }
      SumOverOwnersIsFiltered(rows, amount, owner, base, rest);
      assert us[0] !in rest by {
        forall k | 0 <= k < |rest| ensures rest[k] != us[0] {
          assert rest[k] == us[k + 1];
        }
      }
      assert forall v :: v in us <==> v == us[0] || v in rest;
      SumWhereUnion(rows, amount, OwnedBy(owner, us[0], base), OwnedByAny(owner, rest, base), OwnedByAny(owner, us, base));
    }
  }

  // ----- properties of the balance -----

  /** Split rows built from entries owe, per user, exactly that user's shares. */
  lemma {:induction false} SplitRowsShare(firstId: Id, expenseId: Id, entries: seq<SplitEntry>, u: Id)
    decreases |entries|
    ensures Sum(Where(SplitRows(firstId, expenseId, entries), OwnedBy(SplitDebtor, u, Anything())), SplitAmount)
         == Share(entries, u)
  {
    if entries != [] {
      var rows := SplitRows(firstId, expenseId, entries);
      assert rows[1..] == SplitRows(firstId + 1, expenseId, entries[1..]);
      SplitRowsShare(firstId + 1, expenseId, entries[1..], u);
      var p := OwnedBy(SplitDebtor, u, Anything<ExpenseSplit>());
      var hR := if p(rows[0]) then [rows[0]] else [];
      var hE := if EntryFor(u)(entries[0]) then [entries[0]] else [];
      assert Where(rows, p) == hR + Where(rows[1..], p);
      assert Where(entries, EntryFor(u)) == hE + Where(entries[1..], EntryFor(u));
      assert Sum(hR, SplitAmount) == Sum(hE, EntryAmount);
      SumConcat(hR, Where(rows[1..], p), SplitAmount);
      SumConcat(hE, Where(entries[1..], EntryFor(u)), EntryAmount);
    }
  }

  lemma PaidAfterExpense(expenses: seq<Expense>, e: Expense, u: Id, g: Id)
    ensures TotalPaid(expenses + [e], u, g)
         == TotalPaid(expenses, u, g) + (if e.groupId == g && e.userId == u then e.amount else 0)
  {
    var paid := OwnedBy(ExpensePayer, u, InGroup(g));
    WhereConcat(expenses, [e], paid);
    assert Where([e], paid) == (if paid(e) then [e] else []) + Where([], paid);
    assert paid(e) == (ExpensePayer(e) == u && InGroup(g)(e));
    assert [e][1..] == [];
    assert Sum([e], ExpenseAmount) == e.amount;
    assert Sum(Where([e], paid), ExpenseAmount) == if paid(e) then e.amount else 0;
    SumConcat(Where(expenses, paid), Where([e], paid), ExpenseAmount);
  }

  /** Adding an expense no split refers to leaves what is owed on the existing splits unchanged. */
  lemma OwedOldSplits(expenses: seq<Expense>, splits: seq<ExpenseSplit>, e: Expense, u: Id, g: Id)
    requires forall s :: s in splits ==> s.expenseId != e.id
    ensures TotalOwed(expenses + [e], splits, u, g) == TotalOwed(expenses, splits, u, g)
  {
    var es := expenses + [e];
    forall s | s in splits
      ensures OwnedBy(SplitDebtor, u, JoinsGroup(es, g))(s) == OwnedBy(SplitDebtor, u, JoinsGroup(expenses, g))(s)
    {
      if JoinsGroup(es, g)(s) {
        var x :| x in es && x.id == s.expenseId && x.groupId == g;
        assert x in expenses;
      }
    }
    WhereCongruent(splits, OwedBy(es, u, g), OwedBy(expenses, u, g));
  }

  function OwedBy(expenses: seq<Expense>, u: Id, g: Id): ExpenseSplit -> bool {
    OwnedBy(SplitDebtor, u, JoinsGroup(expenses, g))
  }

  /** On the splits of a new expense `e`, `u` owes its shares if `e` is in `g`, and nothing otherwise. */
  lemma OwedNewSplits(expenses: seq<Expense>, e: Expense, firstId: Id, entries: seq<SplitEntry>, u: Id, g: Id)
    requires forall x :: x in expenses ==> x.id != e.id
    ensures TotalOwed(expenses + [e], SplitRows(firstId, e.id, entries), u, g)
         == if e.groupId == g then Share(entries, u) else 0
  {
    var es := expenses + [e];
    var added := SplitRows(firstId, e.id, entries);
    assert forall s :: s in added ==> s.expenseId == e.id;
    forall s | s in added ensures JoinsGroup(es, g)(s) == (e.groupId == g) {
      assert e in es;
    }
    if e.groupId == g {
      WhereCongruent(added, OwedBy(es, u, g), OwnedBy(SplitDebtor, u, Anything()));
      SplitRowsShare(firstId, e.id, entries, u);
    } else {
      WhereNone(added, OwedBy(es, u, g));
    }
  }

  /**
   * After a new expense `e` and its split rows are appended, a balance in
   * the expense's group moves by what `u` paid minus what `u` owes on it;
   * balances in every other group stay as they were.
   */
  lemma BalanceAfterExpense(expenses: seq<Expense>, splits: seq<ExpenseSplit>, e: Expense, firstId: Id, entries: seq<SplitEntry>, u: Id, g: Id)
    requires forall x :: x in expenses ==> x.id != e.id
    requires forall s :: s in splits ==> s.expenseId != e.id
    ensures Balance(expenses + [e], splits + SplitRows(firstId, e.id, entries), u, g)
         == Balance(expenses, splits, u, g) + Shift(e, entries, u, g)
  {
    var es := expenses + [e];
    var added := SplitRows(firstId, e.id, entries);
    PaidAfterExpense(expenses, e, u, g);
    WhereConcat(splits, added, OwedBy(es, u, g));
    SumConcat(Where(splits, OwedBy(es, u, g)), Where(added, OwedBy(es, u, g)), SplitAmount);
    OwedOldSplits(expenses, splits, e, u, g);
    OwedNewSplits(expenses, e, firstId, entries, u, g);
  }

  /** A balance in `g` reads only the expenses of `g` and the splits joined to them. */
  lemma BalanceIsLocal(expenses: seq<Expense>, splits: seq<ExpenseSplit>, u: Id, g: Id)
    ensures Balance(expenses, splits, u, g)
         == Balance(GroupExpenses(expenses, g), Where(splits, JoinsGroup(expenses, g)), u, g)
  {
    var local := GroupExpenses(expenses, g);
    WhereWhere(expenses, InGroup(g), OwnedBy(ExpensePayer, u, InGroup(g)));
    forall s ensures JoinsGroup(local, g)(s) == JoinsGroup(expenses, g)(s) {
      if JoinsGroup(expenses, g)(s) {
        var x :| x in expenses && x.id == s.expenseId && x.groupId == g;
        assert x in local;
      }
    }
    var joined := Where(splits, JoinsGroup(expenses, g));
    WhereCongruent(joined, OwnedBy(SplitDebtor, u, JoinsGroup(local, g)), OwnedBy(SplitDebtor, u, JoinsGroup(expenses, g)));
    WhereWhere(splits, JoinsGroup(expenses, g), OwnedBy(SplitDebtor, u, JoinsGroup(expenses, g)));
  }

  /** The sum of the balances of `us` in group `g`. */
  function BalanceSum(expenses: seq<Expense>, splits: seq<ExpenseSplit>, us: seq<Id>, g: Id): Cents {
    if us == [] then 0 else Balance(expenses, splits, us[0], g) + BalanceSum(expenses, splits, us[1..], g)
  }

  lemma {:induction false} BalanceSumSplits(expenses: seq<Expense>, splits: seq<ExpenseSplit>, us: seq<Id>, g: Id)
    ensures BalanceSum(expenses, splits, us, g)
         == SumOverOwners(expenses, ExpenseAmount, ExpensePayer, InGroup(g), us)
          - SumOverOwners(splits, SplitAmount, SplitDebtor, JoinsGroup(expenses, g), us)
  {
    if us != [] {
      BalanceSumSplits(expenses, splits, us[1..], g);
    }
  }

  function ExpenseIds(es: seq<Expense>): seq<Id> {
    if es == [] then [] else [es[0].id] + ExpenseIds(es[1..])
  }

  lemma {:induction false} ExpenseIdsSpec(es: seq<Expense>)
    ensures forall id :: id in ExpenseIds(es) <==> exists e :: e in es && e.id == id
    ensures KeysUnique(es, ExpenseKey) ==> Distinct(ExpenseIds(es))
  {
    if es != [] {
      var rest := es[1..];
      ExpenseIdsSpec(rest);
      assert forall e :: e in es <==> e == es[0] || e in rest;
      if KeysUnique(es, ExpenseKey) {
        assert KeysUnique(rest, ExpenseKey) by {
          forall i, j | 0 <= i < j < |rest| ensures rest[i].id != rest[j].id {
            assert rest[i] == es[i + 1] && rest[j] == es[j + 1];
          }
        }
        assert es[0].id !in ExpenseIds(rest) by {
          forall e | e in rest ensures e.id != es[0].id {
            var k :| 0 <= k < |rest| && rest[k] == e;
            assert es[k + 1] == e;
          }
        }
        var ids := ExpenseIds(es);
        forall i, j | 0 <= i < j < |ids| ensures ids[i] != ids[j] {
          if i == 0 {
            assert ids[j] == ExpenseIds(rest)[j - 1];
          } else {
            assert ids[i] == ExpenseIds(rest)[i - 1] && ids[j] == ExpenseIds(rest)[j - 1];
          }
        }
      }
    }
  }

  /** When each expense's splits add up to its amount, the splits of a list of expenses add up to their total. */
  lemma {:induction false} SplitsCoverExpenses(es: seq<Expense>, splits: seq<ExpenseSplit>)
    requires forall e :: e in es ==> Sum(Where(splits, SplitsOf(e.id)), SplitAmount) == e.amount
    ensures SumOverOwners(splits, SplitAmount, SplitExpense, Anything(), ExpenseIds(es)) == Sum(es, ExpenseAmount)
  {
    if es != [] {
      assert es[0] in es;
      assert forall e :: e in es[1..] ==> e in es;
      SplitsCoverExpenses(es[1..], splits);
    }
  }

  /** Everything paid in `g` is paid by one of `us`, so their payments add up to the expenses of `g`. */
  lemma PaidByAllIsGroupTotal(expenses: seq<Expense>, us: seq<Id>, g: Id)
    requires Distinct(us)
    requires forall e :: e in expenses && e.groupId == g ==> e.userId in us
    ensures SumOverOwners(expenses, ExpenseAmount, ExpensePayer, InGroup(g), us)
         == Sum(GroupExpenses(expenses, g), ExpenseAmount)
  {
    SumOverOwnersIsFiltered(expenses, ExpenseAmount, ExpensePayer, InGroup(g), us);
    WhereCongruent(expenses, OwnedByAny(ExpensePayer, us, InGroup(g)), InGroup(g));
  }

  /** Everything owed in `g` is owed by one of `us`, so their debts add up to the splits joined to `g`. */
  lemma OwedByAllIsJoinedTotal(expenses: seq<Expense>, splits: seq<ExpenseSplit>, us: seq<Id>, g: Id)
    requires Distinct(us)
    requires forall s :: s in splits && JoinsGroup(expenses, g)(s) ==> s.userId in us
    ensures SumOverOwners(splits, SplitAmount, SplitDebtor, JoinsGroup(expenses, g), us)
         == Sum(Where(splits, JoinsGroup(expenses, g)), SplitAmount)
  {
    SumOverOwnersIsFiltered(splits, SplitAmount, SplitDebtor, JoinsGroup(expenses, g), us);
    WhereCongruent(splits, OwnedByAny(SplitDebtor, us, JoinsGroup(expenses, g)), JoinsGroup(expenses, g));
  }

  /** When every expense of `g` is split exactly, the splits joined to `g` add up to the expenses of `g`. */
  lemma JoinedTotalIsGroupTotal(expenses: seq<Expense>, splits: seq<ExpenseSplit>, g: Id)
    requires KeysUnique(expenses, ExpenseKey)
    requires forall e :: e in expenses && e.groupId == g ==> Sum(Where(splits, SplitsOf(e.id)), SplitAmount) == e.amount
    ensures Sum(Where(splits, JoinsGroup(expenses, g)), SplitAmount) == Sum(GroupExpenses(expenses, g), ExpenseAmount)
  {
    var inG := GroupExpenses(expenses, g);
    var ids := ExpenseIds(inG);
    WhereKeysUnique(expenses, ExpenseKey, InGroup(g));
    ExpenseIdsSpec(inG);
    SumOverOwnersIsFiltered(splits, SplitAmount, SplitExpense, Anything(), ids);
    forall s ensures OwnedByAny(SplitExpense, ids, Anything())(s) == JoinsGroup(expenses, g)(s) {
      assert Anything<ExpenseSplit>()(s);
      if JoinsGroup(expenses, g)(s) {
        var x :| x in expenses && x.id == s.expenseId && x.groupId == g;
        assert x in inG;
      }
      if s.expenseId in ids {
        var x :| x in inG && x.id == s.expenseId;
        assert x in expenses && x.groupId == g;
      }
    }
    WhereCongruent(splits, OwnedByAny(SplitExpense, ids, Anything()), JoinsGroup(expenses, g));
    SplitsCoverExpenses(inG, splits);
  }

  /**
   * Balances sum to zero: when every expense of `g` is split exactly, and
   * `us` lists, once each, every payer and every debtor in `g`, the
   * balances of `us` in `g` add up to zero.
   */
  lemma BalancesSumToZero(expenses: seq<Expense>, splits: seq<ExpenseSplit>, us: seq<Id>, g: Id)
    requires KeysUnique(expenses, ExpenseKey)
    requires Distinct(us)
    requires forall e :: e in expenses && e.groupId == g ==> e.userId in us
    requires forall s :: s in splits && JoinsGroup(expenses, g)(s) ==> s.userId in us
    requires forall e :: e in expenses && e.groupId == g ==> Sum(Where(splits, SplitsOf(e.id)), SplitAmount) == e.amount
    ensures BalanceSum(expenses, splits, us, g) == 0
  {
    BalanceSumSplits(expenses, splits, us, g);
    PaidByAllIsGroupTotal(expenses, us, g);
    OwedByAllIsJoinedTotal(expenses, splits, us, g);
    JoinedTotalIsGroupTotal(expenses, splits, g);
  }
}
