/** An in-memory stand-in for a relational table with an AUTO_INCREMENT
    primary key, and the query shapes the handlers use on it. */
module Tables {

  /** A stored row: the primary key and the column values. */
  datatype Row<T> = Row(id: nat, data: T)

  /** Rows in insertion order and the next AUTO_INCREMENT value. */
  datatype Table<T> = Table(rows: seq<Row<T>>, nextId: nat)

  /** The result of an INSERT: the assigned `insertId` and the new table. */
  datatype Inserted<T> = Inserted(id: nat, table: Table<T>)

  /** Keys are positive, below the counter, and strictly increase in insertion order. */
  ghost predicate Valid<T>(t: Table<T>)
  {
    && t.nextId >= 1
    && (forall i :: 0 <= i < |t.rows| ==> 1 <= t.rows[i].id < t.nextId)
    && (forall i, j :: 0 <= i < j < |t.rows| ==> t.rows[i].id < t.rows[j].id)
  }

  /** A freshly created table: no rows, AUTO_INCREMENT starting at 1. */
  function Empty<T>(): (t: Table<T>)
    ensures Valid(t) && |t.rows| == 0
  {
    Table([], 1)
  }

  /** INSERT of one row: it is appended, every earlier row stays, and the
      assigned key differs from every key already in a valid table. */
  function Insert<T>(t: Table<T>, data: T): (r: Inserted<T>)
    ensures |r.table.rows| == |t.rows| + 1
    ensures r.table.rows[..|t.rows|] == t.rows
    ensures r.table.rows[|t.rows|] == Row(r.id, data)
    ensures Valid(t) ==> Valid(r.table) && r.id >= 1
    ensures Valid(t) ==> forall i :: 0 <= i < |t.rows| ==> t.rows[i].id != r.id
  {
    Inserted(t.nextId, Table(t.rows + [Row(t.nextId, data)], t.nextId + 1))
  }

  /** `a` is `b` with some elements dropped, the rest kept in order. */
  predicate IsSubsequence<T(==)>(a: seq<T>, b: seq<T>)
    decreases |b|
  {
    |a| == 0 || (|b| > 0 && ((a[0] == b[0] && IsSubsequence(a[1..], b[1..])) || IsSubsequence(a, b[1..])))
  }

  /** `SELECT … WHERE p` (and `Array.prototype.filter`): the elements that
      satisfy `p`, in their original order. */
  function Filter<T(==)>(s: seq<T>, p: T -> bool): (r: seq<T>)
    ensures |r| <= |s|
    ensures IsSubsequence(r, s)
    ensures forall i :: 0 <= i < |r| ==> r[i] in s && p(r[i])
    ensures forall i :: 0 <= i < |s| && p(s[i]) ==> s[i] in r
  {
    if |s| == 0 then []
    else if p(s[0]) then [s[0]] + Filter(s[1..], p)
    else Filter(s[1..], p)
  }

  /** A filter keeps every copy of a value that satisfies `p` and no copy of
      one that does not. */
  lemma {:induction false} FilterCount<T>(s: seq<T>, p: T -> bool, x: T)
    ensures multiset(Filter(s, p))[x] == if p(x) then multiset(s)[x] else 0
    decreases |s|
  {
    if |s| > 0 {
      FilterCount(s[1..], p, x);
      assert s == [s[0]] + s[1..];
      if p(s[0]) {
        assert Filter(s, p) == [s[0]] + Filter(s[1..], p);
      }
    }
  }

  /** Duplicates survive a filter as often as they occur. */
  lemma FilterCounts<T>(s: seq<T>, p: T -> bool)
    ensures forall x :: multiset(Filter(s, p))[x] == if p(x) then multiset(s)[x] else 0
  {
    forall x ensures multiset(Filter(s, p))[x] == if p(x) then multiset(s)[x] else 0 {
      FilterCount(s, p, x);
    }
  }

  /** The position of the first element satisfying `p`, or `|s|` if none does
      (the row a `LIMIT 1` query without ORDER BY returns, in insertion order). */
  function FirstIndex<T>(s: seq<T>, p: T -> bool): (k: nat)
    ensures k <= |s|
    ensures k < |s| ==> p(s[k])
    ensures forall j :: 0 <= j < k ==> !p(s[j])
  {
    if |s| == 0 then 0
    else if p(s[0]) then 0
    else 1 + FirstIndex(s[1..], p)
  }

  /** `rows.map(f)`. */
  function Map<A, B>(s: seq<A>, f: A -> B): (r: seq<B>)
    ensures |r| == |s|
    ensures forall i :: 0 <= i < |s| ==> r[i] == f(s[i])
  {
    seq(|s|, i requires 0 <= i < |s| => f(s[i]))
  }

  /** `rows.map(f)` distributes over concatenation. */
  lemma MapConcat<A, B>(a: seq<A>, b: seq<A>, f: A -> B)
    ensures Map(a + b, f) == Map(a, f) + Map(b, f)
  {
  }

  /** A value occurs in `rows.map(f)` exactly when `f` yields it for some row. */
  lemma MapMembers<A, B>(s: seq<A>, f: A -> B, y: B)
    ensures y in Map(s, f) <==> exists i :: 0 <= i < |s| && f(s[i]) == y
  {
    if y in Map(s, f) {
      var k :| 0 <= k < |Map(s, f)| && Map(s, f)[k] == y;
      assert f(s[k]) == y;
    }
  }

  /** A query returns some row exactly when some row satisfies its condition,
      and a `LIMIT 1` query then finds one. */
  lemma FilterNonEmpty<T>(s: seq<T>, p: T -> bool)
    ensures |Filter(s, p)| > 0 <==> exists i :: 0 <= i < |s| && p(s[i])
    ensures |Filter(s, p)| > 0 <==> FirstIndex(s, p) < |s|
  {
    if |Filter(s, p)| > 0 {
      var x := Filter(s, p)[0];
      var i :| 0 <= i < |s| && s[i] == x;
      assert p(s[i]);
    }
    if exists i :: 0 <= i < |s| && p(s[i]) {
      var i :| 0 <= i < |s| && p(s[i]);
      assert s[i] in Filter(s, p);
    }
  }

  /** Every element of a subsequence occurs in the sequence it was drawn from. */
  lemma {:induction false} SubsequenceMembers<T>(a: seq<T>, b: seq<T>)
    requires IsSubsequence(a, b)
    ensures forall i :: 0 <= i < |a| ==> a[i] in b
    decreases |b|
  {
    if |a| == 0 {
    } else if a[0] == b[0] && IsSubsequence(a[1..], b[1..]) {
      SubsequenceMembers(a[1..], b[1..]);
      forall i | 0 <= i < |a| ensures a[i] in b {
        if i > 0 {
          assert a[i] == a[1..][i - 1];
        }
      }
    } else {
      SubsequenceMembers(a, b[1..]);
    }
  }
}
