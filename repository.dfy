/**
 * The generic repository of app/repositories/base.py: queries and row
 * updates over one table, for any row type, given the column that is
 * its primary key (`key`).
 */
module Repository {
  import opened Wrappers
  import opened Models

  /** No two rows of the table share a key. */
  ghost predicate KeysUnique<T(!new), K>(rows: seq<T>, key: T -> K) {
    forall i, j :: 0 <= i < j < |rows| ==> key(rows[i]) != key(rows[j])
  }

  /** Every value of column `col` is below `bound`. */
  ghost predicate Below<T(!new)>(rows: seq<T>, col: T -> Id, bound: Id) {
    forall x :: x in rows ==> col(x) < bound
  }

  /** `select(model).where(p)`: the rows satisfying `p`, in table order. */
  function Where<T(!new)>(rows: seq<T>, p: T -> bool): (r: seq<T>)
    ensures |r| <= |rows|
    ensures forall x :: x in r <==> x in rows && p(x)
  {
    if rows == [] then []
    else (if p(rows[0]) then [rows[0]] else []) + Where(rows[1..], p)
  }

  /** A row satisfying the condition occurs in the result as often as in the table. */
  lemma {:induction false} WhereCount<T(!new)>(rows: seq<T>, p: T -> bool)
    ensures forall x :: p(x) ==> multiset(Where(rows, p))[x] == multiset(rows)[x]
  {
    if rows != [] {
      WhereCount(rows[1..], p);
      assert rows == [rows[0]] + rows[1..];
    }
  }

  function Anything<T(!new)>(): T -> bool { _ => true }

  function KeyIs<T(!new), K(==)>(key: T -> K, id: K): T -> bool { x => key(x) == id }

  function KeyIsNot<T(!new)>(key: T -> Id, id: Id): T -> bool { x => key(x) != id }

  /** `result.scalar_one_or_none()`: no row, the one row, or an exception for several. */
  function ScalarOneOrNone<T(!new)>(rows: seq<T>): (r: Result<Option<T>, Error>)
    ensures r == Success(None) <==> rows == []
    ensures r.Failure? <==> |rows| > 1
    ensures r.Failure? ==> r.error == MultipleResultsFound
    ensures r.Success? && r.value.Some? ==> rows == [r.value.value]
  {
    if |rows| == 0 then Success(None)
    else if |rows| == 1 then Success(Some(rows[0]))
    else Failure(MultipleResultsFound)
  }

  /** `get(id)`: the row whose key is `id`, or `None`. */
  function Get<T(!new), K(==)>(rows: seq<T>, key: T -> K, id: K): (r: Result<Option<T>, Error>)
    ensures r.Success? && r.value.Some? ==> r.value.value in rows && key(r.value.value) == id
    ensures r == Success(None) <==> forall x :: x in rows ==> key(x) != id
    ensures KeysUnique(rows, key) ==> r.Success?
    ensures KeysUnique(rows, key) ==> forall x :: x in rows && key(x) == id ==> r == Success(Some(x))
  {
    WhereKeyAtMostOne(rows, key, id);
    WhereEmpty(rows, KeyIs(key, id));
    ScalarOneOrNone(Where(rows, KeyIs(key, id)))
  }

  /** `get_all()`: a query with no condition returns the whole table. */
  function GetAll<T(!new)>(rows: seq<T>): (r: seq<T>)
    ensures r == rows
  {
    WhereAnything(rows);
    Where(rows, Anything())
  }

  /** The table after `session.delete` of the row keyed `id`. */
  function Deleted<T(!new)>(rows: seq<T>, key: T -> Id, id: Id): seq<T> {
    Where(rows, KeyIsNot(key, id))
  }

  /** The table after the row keyed like `row` is overwritten by `row`. */
  function Replaced<T(!new)>(rows: seq<T>, key: T -> Id, row: T): seq<T> {
    seq(|rows|, i requires 0 <= i < |rows| => if key(rows[i]) == key(row) then row else rows[i])
  }

  /** The loop of `update`: the field assignments, applied one after the other. */
  function Assigned<T(!new), F>(row: T, fields: seq<F>, setattr: (T, F) -> T): T {
    if fields == [] then row
    else setattr(Assigned(row, fields[..|fields| - 1], setattr), fields[|fields| - 1])
  }

  /** The `for field, value in ...: setattr(db_obj, field, value)` loop of `update`. */
  method AssignAll<T(!new), F>(row: T, fields: seq<F>, setattr: (T, F) -> T) returns (r: T)
    ensures r == Assigned(row, fields, setattr)
  {
    r := row;
    for i := 0 to |fields|
      invariant r == Assigned(row, fields[..i], setattr)
    {
      assert fields[..i + 1][..i] == fields[..i];
      r := setattr(r, fields[i]);
    }
    assert fields[..|fields|] == fields;
  }

  // ----- lemmas about queries -----

  lemma {:induction false} WhereAnything<T(!new)>(rows: seq<T>)
    ensures Where(rows, Anything()) == rows
  {
    if rows != [] {
      WhereAnything(rows[1..]);
      assert [rows[0]] + rows[1..] == rows;
    }
  }

  lemma {:induction false} WhereConcat<T(!new)>(a: seq<T>, b: seq<T>, p: T -> bool)
    ensures Where(a + b, p) == Where(a, p) + Where(b, p)
  {
    if a == [] {
      assert a + b == b;
    } else {
      assert (a + b)[0] == a[0];
      assert (a + b)[1..] == a[1..] + b;
      WhereConcat(a[1..], b, p);
    }
  }

  lemma WhereNone<T(!new)>(rows: seq<T>, p: T -> bool)
    requires forall x :: x in rows ==> !p(x)
    ensures Where(rows, p) == []
  {
  }

  lemma WhereEmpty<T(!new)>(rows: seq<T>, p: T -> bool)
    ensures Where(rows, p) == [] <==> forall x :: x in rows ==> !p(x)
  {
    if forall x :: x in rows ==> !p(x) {
      WhereNone(rows, p);
    }
  }

  lemma {:induction false} WhereEvery<T(!new)>(rows: seq<T>, p: T -> bool)
    requires forall x :: x in rows ==> p(x)
    ensures Where(rows, p) == rows
  {
    if rows != [] {
      assert rows[0] in rows;
      WhereEvery(rows[1..], p);
      assert [rows[0]] + rows[1..] == rows;
    }
  }

  /** Two conditions that agree on every row select the same rows. */
  lemma {:induction false} WhereCongruent<T(!new)>(rows: seq<T>, p: T -> bool, q: T -> bool)
    requires forall x :: x in rows ==> p(x) == q(x)
    ensures Where(rows, p) == Where(rows, q)
  {
    if rows != [] {
      assert rows[0] in rows;
      WhereCongruent(rows[1..], p, q);
    }
  }

  /** Filtering by a condition, then by a stronger one, is filtering by the stronger one. */
  lemma {:induction false} WhereWhere<T(!new)>(rows: seq<T>, p: T -> bool, q: T -> bool)
    requires forall x :: q(x) ==> p(x)
    ensures Where(Where(rows, p), q) == Where(rows, q)
  {
    if rows != [] {
      WhereWhere(rows[1..], p, q);
      var head := if p(rows[0]) then [rows[0]] else [];
      WhereConcat(head, Where(rows[1..], p), q);
      if p(rows[0]) {
        assert Where(head, q) == (if q(rows[0]) then [rows[0]] else []) + Where([], q);
      }
    }
  }

  /** The rest of a table with unique keys has unique keys, none of them the first row's. */
  lemma KeysUniqueTail<T(!new), K>(rows: seq<T>, key: T -> K)
    requires KeysUnique(rows, key) && rows != []
    ensures KeysUnique(rows[1..], key)
    ensures forall x :: x in rows[1..] ==> key(x) != key(rows[0])
  {
    var rest := rows[1..];
    forall i, j | 0 <= i < j < |rest| ensures key(rest[i]) != key(rest[j]) {
      assert rest[i] == rows[i + 1] && rest[j] == rows[j + 1];
    }
    forall x | x in rest ensures key(x) != key(rows[0]) {
      var k :| 0 <= k < |rest| && rest[k] == x;
      assert rows[k + 1] == x;
    }
  }

  /** A row whose key no row of `rows` has can go in front of them. */
  lemma KeysUniqueCons<T(!new), K>(x: T, rows: seq<T>, key: T -> K)
    requires KeysUnique(rows, key) && forall y :: y in rows ==> key(y) != key(x)
    ensures KeysUnique([x] + rows, key)
  {
    var r := [x] + rows;
    forall i, j | 0 <= i < j < |r| ensures key(r[i]) != key(r[j]) {
      assert r[j] == rows[j - 1] && rows[j - 1] in rows;
      if i > 0 {
        assert r[i] == rows[i - 1];
      }
    }
  }

  /** A sub-table of a table with unique keys has unique keys. */
  lemma {:induction false} WhereKeysUnique<T(!new), K>(rows: seq<T>, key: T -> K, p: T -> bool)
    requires KeysUnique(rows, key)
    ensures KeysUnique(Where(rows, p), key)
  {
    if rows != [] {
      KeysUniqueTail(rows, key);
      WhereKeysUnique(rows[1..], key, p);
      if p(rows[0]) {
        KeysUniqueCons(rows[0], Where(rows[1..], p), key);
      }
    }
  }

  lemma {:induction false} WhereKeyAtMostOne<T(!new), K>(rows: seq<T>, key: T -> K, id: K)
    ensures KeysUnique(rows, key) ==> |Where(rows, KeyIs(key, id))| <= 1
  {
    if rows != [] && KeysUnique(rows, key) {
      var rest := rows[1..];
      assert KeysUnique(rest, key) by {
        forall i, j | 0 <= i < j < |rest| ensures key(rest[i]) != key(rest[j]) {
          assert rest[i] == rows[i + 1] && rest[j] == rows[j + 1];
        }
      }
      WhereKeyAtMostOne(rest, key, id);
      if key(rows[0]) == id {
        forall x | x in rest ensures !KeyIs(key, id)(x) {
          var k :| 0 <= k < |rest| && rest[k] == x;
          assert rows[k + 1] == x;
        }
        WhereNone(rest, KeyIs(key, id));
      }
    }
  }

  // ----- lemmas about the mutations -----

  /** A row whose key no row has keeps the keys unique. */
  lemma AppendNewKey<T(!new), K>(rows: seq<T>, key: T -> K, x: T)
    requires KeysUnique(rows, key) && forall y :: y in rows ==> key(y) != key(x)
    ensures KeysUnique(rows + [x], key)
  {
    var r := rows + [x];
    forall i, j | 0 <= i < j < |r| ensures key(r[i]) != key(r[j]) {
      assert r[i] == rows[i] && rows[i] in rows;
      if j < |rows| {
        assert r[j] == rows[j];
      }
    }
  }

  /** After `delete(id)` no row has key `id`, every other row stays, and the keys stay unique. */
  lemma DeletedSpec<T(!new)>(rows: seq<T>, key: T -> Id, id: Id)
    requires KeysUnique(rows, key)
    ensures Get(Deleted(rows, key, id), key, id) == Success(None)
    ensures forall x :: x in Deleted(rows, key, id) <==> x in rows && key(x) != id
    ensures KeysUnique(Deleted(rows, key, id), key)
    ensures forall other :: other != id ==> Get(Deleted(rows, key, id), key, other) == Get(rows, key, other)
  {
    WhereKeysUnique(rows, key, KeyIsNot(key, id));
    forall other | other != id
      ensures Get(Deleted(rows, key, id), key, other) == Get(rows, key, other)
    {
      WhereWhere(rows, KeyIsNot(key, id), KeyIs(key, other));
    }
  }

  /** Deleting an existing key of a table with unique keys removes exactly one row. */
  lemma {:induction false} DeletedLength<T(!new)>(rows: seq<T>, key: T -> Id, id: Id)
    requires KeysUnique(rows, key)
    requires exists x :: x in rows && key(x) == id
    ensures |Deleted(rows, key, id)| == |rows| - 1
  {
    var rest := rows[1..];
    KeysUniqueTail(rows, key);
    if key(rows[0]) == id {
      forall x | x in rest ensures KeyIsNot(key, id)(x) {
        var k :| 0 <= k < |rest| && rest[k] == x;
        assert rows[k + 1] == x;
      }
      WhereEvery(rest, KeyIsNot(key, id));
    } else {
      var x :| x in rows && key(x) == id;
      assert x in rest;
      DeletedLength(rest, key, id);
    }
  }

  /** After an update of an existing row, `get` finds the new row, and every other row stays. */
  lemma ReplacedSpec<T(!new)>(rows: seq<T>, key: T -> Id, row: T)
    requires KeysUnique(rows, key)
    requires exists x :: x in rows && key(x) == key(row)
    ensures |Replaced(rows, key, row)| == |rows|
    ensures KeysUnique(Replaced(rows, key, row), key)
    ensures Get(Replaced(rows, key, row), key, key(row)) == Success(Some(row))
    ensures forall x :: x in Replaced(rows, key, row) <==> x == row || (x in rows && key(x) != key(row))
  {
    var r := Replaced(rows, key, row);
    assert forall i :: 0 <= i < |r| ==> key(r[i]) == key(rows[i]);
    var x :| x in rows && key(x) == key(row);
    var k :| 0 <= k < |rows| && rows[k] == x;
    assert r[k] == row;
    forall y | y in rows && key(y) != key(row) ensures y in r {
      var m :| 0 <= m < |rows| && rows[m] == y;
      assert r[m] == y;
    }
  }

  // ----- field assignments of `update` -----

  /** The fields of `init` hold after one more assignment of a different field. */
  lemma InitFieldsHold<T(!new), F(!new)>(r: T, init: seq<F>, last: F, setattr: (T, F) -> T, kind: F -> nat)
    requires forall f :: f in init ==> setattr(r, f) == r && kind(f) != kind(last)
    requires forall x, f :: setattr(setattr(x, f), f) == setattr(x, f)
    requires forall x, f, h :: kind(f) != kind(h) && setattr(x, f) == x ==> setattr(setattr(x, h), f) == setattr(x, h)
    ensures forall f :: f in init + [last] ==> setattr(setattr(r, last), f) == setattr(r, last)
  {
    forall f | f in init + [last] ensures setattr(setattr(r, last), f) == setattr(r, last) {
      if f != last {
        assert f in init;
      }
    }
  }

  /**
   * For assignments that name each field at most once, each assignment
   * holds afterwards, provided assigning one field never disturbs another.
   */
  lemma {:induction false} AssignmentsHold<T(!new), F(!new)>(row: T, fields: seq<F>, setattr: (T, F) -> T, kind: F -> nat)
    requires DistinctKinds(fields, kind)
    requires forall x, f :: setattr(setattr(x, f), f) == setattr(x, f)
    requires forall x, f, h :: kind(f) != kind(h) && setattr(x, f) == x ==> setattr(setattr(x, h), f) == setattr(x, h)
    ensures forall f :: f in fields ==> setattr(Assigned(row, fields, setattr), f) == Assigned(row, fields, setattr)
  {
    if fields != [] {
      var n := |fields| - 1;
      var init := fields[..n];
      assert DistinctKinds(init, kind) by {
        forall i, j | 0 <= i < j < |init| ensures kind(init[i]) != kind(init[j]) {
          assert init[i] == fields[i] && init[j] == fields[j];
        }
      }
      AssignmentsHold(row, init, setattr, kind);
      forall f | f in init ensures kind(f) != kind(fields[n]) {
        var k :| 0 <= k < |init| && init[k] == f;
        assert fields[k] == f;
      }
      assert fields == init + [fields[n]];
      InitFieldsHold(Assigned(row, init, setattr), init, fields[n], setattr, kind);
    }
  }

  /** Assigning a user field twice is assigning it once, and never disturbs another field. */
  lemma UserAttrsIndependent()
    ensures forall x, f :: SetUserAttr(SetUserAttr(x, f), f) == SetUserAttr(x, f)
    ensures forall x, f, h ::
              UserFieldKind(f) != UserFieldKind(h) && SetUserAttr(x, f) == x
              ==> SetUserAttr(SetUserAttr(x, h), f) == SetUserAttr(x, h)
  {
  }

  /** Assigning a group field twice is assigning it once, and never disturbs another field. */
  lemma GroupAttrsIndependent()
    ensures forall x, f :: SetGroupAttr(SetGroupAttr(x, f), f) == SetGroupAttr(x, f)
    ensures forall x, f, h ::
              GroupFieldKind(f) != GroupFieldKind(h) && SetGroupAttr(x, f) == x
              ==> SetGroupAttr(SetGroupAttr(x, h), f) == SetGroupAttr(x, h)
  {
  }

  /** Assigning an expense field twice is assigning it once, and never disturbs another field. */
  lemma ExpenseAttrsIndependent()
    ensures forall x, f :: SetExpenseAttr(SetExpenseAttr(x, f), f) == SetExpenseAttr(x, f)
    ensures forall x, f, h ::
              ExpenseFieldKind(f) != ExpenseFieldKind(h) && SetExpenseAttr(x, f) == x
              ==> SetExpenseAttr(SetExpenseAttr(x, h), f) == SetExpenseAttr(x, h)
  {
  }

  /** A user update keeps the key and creation time, and every field it does not name. */
  lemma {:induction false} UserUntouched(u: User, fields: seq<UserField>)
    ensures var r := Assigned(u, fields, SetUserAttr);
      && r.id == u.id && r.createdAt == u.createdAt
      && ((forall f :: f in fields ==> !f.SetName?) ==> r.name == u.name)
      && ((forall f :: f in fields ==> !f.SetEmail?) ==> r.email == u.email)
      && ((forall f :: f in fields ==> !f.SetPassword?) ==> r.password == u.password)
  {
    if fields != [] {
      var init := fields[..|fields| - 1];
      assert forall f :: f in init ==> f in fields;
      UserUntouched(u, init);
    }
  }

  /** A group update keeps the key and creation time, and every field it does not name. */
  lemma {:induction false} GroupUntouched(g: Group, fields: seq<GroupField>)
    ensures var r := Assigned(g, fields, SetGroupAttr);
      && r.id == g.id && r.createdAt == g.createdAt
      && ((forall f :: f in fields ==> !f.SetGroupName?) ==> r.name == g.name)
      && ((forall f :: f in fields ==> !f.SetDescription?) ==> r.description == g.description)
  {
    if fields != [] {
      var init := fields[..|fields| - 1];
      assert forall f :: f in init ==> f in fields;
      GroupUntouched(g, init);
    }
  }

  /** An expense update keeps the key, and every field it does not name. */
  lemma {:induction false} ExpenseUntouched(e: Expense, fields: seq<ExpenseField>)
    ensures var r := Assigned(e, fields, SetExpenseAttr);
      && r.id == e.id
      && ((forall f :: f in fields ==> !f.SetExpenseDescription?) ==> r.description == e.description)
      && ((forall f :: f in fields ==> !f.SetAmount?) ==> r.amount == e.amount)
      && ((forall f :: f in fields ==> !f.SetDate?) ==> r.date == e.date)
      && ((forall f :: f in fields ==> !f.SetPayer?) ==> r.userId == e.userId)
      && ((forall f :: f in fields ==> !f.SetExpenseGroup?) ==> r.groupId == e.groupId)
  {
    if fields != [] {
      var init := fields[..|fields| - 1];
      assert forall f :: f in init ==> f in fields;
      ExpenseUntouched(e, init);
    }
  }
}
