/**
 * A database table as a sequence of rows with a primary key: the upsert a
 * Doctrine `persist` + `flush` performs, the delete a `remove` + `flush`
 * performs, and lookup by key.
 */
module Tables {
  import opened Wrappers
  import Ordering

  /** The primary keys present in the table. */
  function Keys<T>(rows: seq<T>, key: T -> nat): (ks: set<nat>)
    ensures forall x | x in rows :: key(x) in ks
  {
    if rows == [] then {} else {key(rows[0])} + Keys(rows[1..], key)
  }

  /** No two rows share a primary key. */
  predicate KeysUnique<T>(rows: seq<T>, key: T -> nat)
  {
    rows == [] || (key(rows[0]) !in Keys(rows[1..], key) && KeysUnique(rows[1..], key))
  }

  /** The first row with primary key `k`, if any (SELECT ... WHERE id = k). */
  function Find<T>(rows: seq<T>, k: nat, key: T -> nat): (r: Option<T>)
    ensures r.Some? <==> k in Keys(rows, key)
    ensures r.Some? ==> r.value in rows && key(r.value) == k
  {
    if rows == [] then None
    else if key(rows[0]) == k then Some(rows[0])
    else Find(rows[1..], k, key)
  }

  /**
   * INSERT or UPDATE: the row with the same key is replaced in place, or the
   * row is appended when its key is new.
   */
  function Upsert<T>(rows: seq<T>, row: T, key: T -> nat): (r: seq<T>)
    ensures row in r
    ensures Keys(r, key) == Keys(rows, key) + {key(row)}
    ensures forall x | x in r :: x == row || x in rows
    ensures forall x | x in rows && key(x) != key(row) :: x in r
    ensures KeysUnique(rows, key) ==> KeysUnique(r, key)
  {
    if rows == [] then [row]
    else if key(rows[0]) == key(row) then
      assert ([row] + rows[1..])[1..] == rows[1..];
      [row] + rows[1..]
    else
      var t := Upsert(rows[1..], row, key);
      assert ([rows[0]] + t)[1..] == t;
      [rows[0]] + t
  }

  /** DELETE ... WHERE id = k. */
  function RemoveKey<T>(rows: seq<T>, k: nat, key: T -> nat): (r: seq<T>)
    ensures Keys(r, key) <= Keys(rows, key)
    ensures k !in Keys(r, key)
    ensures forall x | x in r :: x in rows
    ensures forall x | x in rows && key(x) != k :: x in r
    ensures KeysUnique(rows, key) ==> KeysUnique(r, key)
  {
    if rows == [] then []
    else if key(rows[0]) == k then RemoveKey(rows[1..], k, key)
    else
      var t := RemoveKey(rows[1..], k, key);
      assert ([rows[0]] + t)[1..] == t;
      [rows[0]] + t
  }

  /** On a table with unique keys, deleting key `k` removes exactly that key. */
  lemma {:induction false} RemoveKeyKeys<T>(rows: seq<T>, k: nat, key: T -> nat)
    ensures Keys(RemoveKey(rows, k, key), key) == Keys(rows, key) - {k}
  {
    if rows != [] {
      RemoveKeyKeys(rows[1..], k, key);
      if key(rows[0]) != k {
        var t := RemoveKey(rows[1..], k, key);
        assert ([rows[0]] + t)[1..] == t;
      }
    }
  }

  /** After an upsert, looking up the row's key yields exactly that row. */
  lemma {:induction false} FindAfterUpsert<T>(rows: seq<T>, row: T, key: T -> nat)
    ensures Find(Upsert(rows, row, key), key(row), key) == Some(row)
  {
    if rows != [] && key(rows[0]) != key(row) {
      FindAfterUpsert(rows[1..], row, key);
      var t := Upsert(rows[1..], row, key);
      assert ([rows[0]] + t)[1..] == t;
    }
  }

  /** An upsert does not disturb the rows stored under other keys. */
  lemma {:induction false} FindOtherAfterUpsert<T>(rows: seq<T>, row: T, k: nat, key: T -> nat)
    requires k != key(row)
    ensures Find(Upsert(rows, row, key), k, key) == Find(rows, k, key)
  {
    if rows != [] {
      if key(rows[0]) == key(row) {
        assert ([row] + rows[1..])[1..] == rows[1..];
      } else {
        FindOtherAfterUpsert(rows[1..], row, k, key);
        var t := Upsert(rows[1..], row, key);
        assert ([rows[0]] + t)[1..] == t;
      }
    }
  }

  /** A delete does not disturb the rows stored under other keys. */
  lemma {:induction false} FindOtherAfterRemove<T>(rows: seq<T>, k: nat, other: nat, key: T -> nat)
    requires other != k
    ensures Find(RemoveKey(rows, k, key), other, key) == Find(rows, other, key)
  {
    if rows != [] {
      FindOtherAfterRemove(rows[1..], k, other, key);
      if key(rows[0]) != k {
        var t := RemoveKey(rows[1..], k, key);
        assert ([rows[0]] + t)[1..] == t;
      }
    }
  }

  /** On a table with unique keys, an upsert never leaves a second row with the same key. */
  lemma {:induction false} UpsertSingleRow<T>(rows: seq<T>, row: T, key: T -> nat)
    requires KeysUnique(rows, key)
    ensures forall x | x in Upsert(rows, row, key) && key(x) == key(row) :: x == row
  {
    if rows != [] {
      if key(rows[0]) == key(row) {
        assert ([row] + rows[1..])[1..] == rows[1..];
        forall x | x in rows[1..] ensures key(x) != key(row) { }
      } else {
        UpsertSingleRow(rows[1..], row, key);
        var t := Upsert(rows[1..], row, key);
        assert ([rows[0]] + t)[1..] == t;
      }
    }
  }

  /** `COUNT(DISTINCT key)` over the rows that satisfy `p`. */
  function CountDistinct<T(==)>(rows: seq<T>, p: T -> bool, key: T -> nat): nat
  {
    |set x | x in rows && p(x) :: key(x)|
  }

  /** The count is zero exactly when no row satisfies `p`. */
  lemma CountDistinctZero<T>(rows: seq<T>, p: T -> bool, key: T -> nat)
    ensures CountDistinct(rows, p, key) == 0 <==> forall x | x in rows :: !p(x)
  {
    var ks := set y | y in rows && p(y) :: key(y);
    if exists x | x in rows :: p(x) {
      var x :| x in rows && p(x);
      assert key(x) in ks;
      assert |ks| == |ks - {key(x)}| + 1;
    } else {
      assert ks == {};
    }
  }

  /** The distinct keys of the matching rows, split into the head row and the rest. */
  lemma MatchingKeysSplit<T>(rows: seq<T>, p: T -> bool, key: T -> nat)
    requires rows != []
    ensures (set x | x in rows && p(x) :: key(x))
         == (set x | x in rows[1..] && p(x) :: key(x)) + (if p(rows[0]) then {key(rows[0])} else {})
  {
    assert forall x :: x in rows <==> x == rows[0] || x in rows[1..] by {
      assert rows == [rows[0]] + rows[1..];
    }
  }

  /** On a table with unique keys, the distinct count is the number of matching rows. */
  lemma {:induction false} CountDistinctIsFilterLength<T>(rows: seq<T>, p: T -> bool, key: T -> nat)
    requires KeysUnique(rows, key)
    ensures CountDistinct(rows, p, key) == |Ordering.Filter(rows, p)|
  {
    if rows == [] {
      assert (set x | x in rows && p(x) :: key(x)) == {};
    } else {
      var tail := rows[1..];
      CountDistinctIsFilterLength(tail, p, key);
      MatchingKeysSplit(rows, p, key);
      assert rows == [rows[0]] + tail;
      Ordering.FilterCons(rows[0], tail, p);
      var rest := set x | x in tail && p(x) :: key(x);
      assert rest <= Keys(tail, key);
      assert key(rows[0]) !in rest;
    }
  }
}
