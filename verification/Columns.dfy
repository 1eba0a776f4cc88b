/**
 A foreign-key column of a table, seen as a map from row id to the key the row refers to.
 The four rules of the circulation desk (member and book, loans and reservations) all have the
 same form: at most `limit` rows of a column may hold one key. Everything about counting rows
 is proved here, once, for an arbitrary column.
 */
module Columns {

  type Id = nat
  type Column = map<Id, Id>

  /** Rows that hold key `k`. */
  function Holders(col: Column, k: Id): set<Id> {
    set i | i in col && col[i] == k
  }

  /** Rows that hold key `k`, leaving out row `self`. */
  function Others(col: Column, k: Id, self: Id): set<Id> {
    set i | i in col && col[i] == k && i != self
  }

  function Excess(col: Column, k: Id, limit: nat): nat {
    if |Holders(col, k)| > limit then |Holders(col, k)| - limit else 0
  }

  ghost predicate Within(col: Column, limit: nat) {
    forall k :: |Holders(col, k)| <= limit
  }

  /** A column whose excess has not grown since it was within its limit is still within it. */
  lemma NoExcessIsWithin(col: Column, col': Column, limit: nat)
    requires Within(col, limit)
    requires forall k :: Excess(col', k, limit) <= Excess(col, k, limit)
    ensures Within(col', limit)
  {
    forall k
      ensures |Holders(col', k)| <= limit
    {
      assert Excess(col', k, limit) <= Excess(col, k, limit);
      assert |Holders(col, k)| <= limit;
    }
  }

  /** `col'` is `col` without some of its rows. */
  ghost predicate Shrunk(col: Column, col': Column) {
    forall i :: i in col' ==> i in col && col'[i] == col[i]
  }

  /** `col'` is `col` after one row was written, the key it now holds being below its limit. */
  ghost predicate Admitted(col: Column, col': Column, limit: nat) {
    exists i, k :: col' == col[i := k] && |Others(col, k, i)| < limit
  }

  ghost predicate ColumnStep(col: Column, col': Column, limit: nat) {
    Shrunk(col, col') || Admitted(col, col', limit)
  }

  lemma {:induction false} SubsetSize<T>(a: set<T>, b: set<T>)
    requires a <= b
    ensures |a| <= |b|
    decreases |b|
  {
    if a == {} {
    } else {
      var x :| x in a;
      SubsetSize(a - {x}, b - {x});
    }
  }

  /** Writing `k` into row `i` makes `k` held by the other holders and by `i`. */
  lemma WriteCount(col: Column, i: Id, k: Id)
    ensures |Holders(col[i := k], k)| == |Others(col, k, i)| + 1
    ensures forall k' :: k' != k ==> |Holders(col[i := k], k')| <= |Holders(col, k')|
  {
    assert Holders(col[i := k], k) == Others(col, k, i) + {i};
    forall k' | k' != k
      ensures |Holders(col[i := k], k')| <= |Holders(col, k')|
    {
      SubsetSize(Holders(col[i := k], k'), Holders(col, k'));
    }
  }

  lemma ShrunkCount(col: Column, col': Column, k: Id)
    requires Shrunk(col, col')
    ensures |Holders(col', k)| <= |Holders(col, k)|
  {
    SubsetSize(Holders(col', k), Holders(col, k));
  }

  lemma ShrunkKeepsWithin(col: Column, col': Column, limit: nat)
    requires Within(col, limit) && Shrunk(col, col')
    ensures Within(col', limit)
  {
    forall k
      ensures |Holders(col', k)| <= limit
    {
      ShrunkCount(col, col', k);
    }
  }

  /** One write keeps the column within its limit exactly when the written key is. */
  lemma WriteKeepsWithin(col: Column, i: Id, k: Id, limit: nat)
    requires Within(col, limit)
    ensures Within(col[i := k], limit) <==> |Holders(col[i := k], k)| <= limit
  {
    WriteCount(col, i, k);
    var col' := col[i := k];
    assert forall k' :: k' != k ==> |Holders(col', k')| <= |Holders(col, k')| <= limit;
  }

  lemma StepKeepsExcess(col: Column, col': Column, limit: nat, k: Id)
    requires ColumnStep(col, col', limit)
    ensures Excess(col', k, limit) <= Excess(col, k, limit)
  {
    if Shrunk(col, col') {
      ShrunkCount(col, col', k);
    } else {
      var i, k0 :| col' == col[i := k0] && |Others(col, k0, i)| < limit;
      WriteCount(col, i, k0);
    }
  }

  lemma RemovedRows(col: Column, rows: set<Id>)
    requires rows <= col.Keys
    ensures |col| == |col - rows| + |rows|
  {
    assert col.Keys == (col - rows).Keys + rows;
  }

  lemma TimesOneMore(n: nat, m: nat)
    ensures n * (m + 1) == n * m + n
  {
  }

  ghost predicate KeysIn(col: Column, keys: set<Id>) {
    forall i :: i in col ==> col[i] in keys
  }

  ghost predicate WithinOn(col: Column, keys: set<Id>, n: nat) {
    forall k :: k in keys ==> |Holders(col, k)| <= n
  }

  lemma DropKey(col: Column, keys: set<Id>, n: nat, k: Id)
    requires KeysIn(col, keys) && WithinOn(col, keys, n) && k in keys
    ensures KeysIn(col - Holders(col, k), keys - {k})
    ensures WithinOn(col - Holders(col, k), keys - {k}, n)
    ensures |col| <= |col - Holders(col, k)| + n
  {
    var rest := col - Holders(col, k);
    forall j | j in keys - {k}
      ensures |Holders(rest, j)| <= n
    {
      ShrunkCount(col, rest, j);
    }
    RemovedRows(col, Holders(col, k));
  }

  /**
   Double counting: if every row's key lies in `keys` and every key has at most `n` holders, then
   the column has at most `n` rows per key.
   */
  lemma {:induction false} RowsBound(col: Column, keys: set<Id>, n: nat)
    requires KeysIn(col, keys) && WithinOn(col, keys, n)
    ensures |col| <= n * |keys|
    decreases |keys|
  {
    if keys == {} {
      assert col == map[];
    } else {
      var k :| k in keys;
      var fewer := keys - {k};
      DropKey(col, keys, n, k);
      RowsBound(col - Holders(col, k), fewer, n);
      assert |keys| == |fewer| + 1;
      TimesOneMore(n, |fewer|);
    }
  }
}
