/**
 * A database table as the service sees it through a Spring Data
 * repository: rows in storage order, each under a primary key that the
 * database generates (IDENTITY), and the lookups, saves and deletes the
 * repositories offer.
 */
module Storage {
  import opened Wrappers

  /** A stored row: its primary key and its columns. */
  datatype Row<+T> = Row(id: int, val: T)

  /** Index of the first element satisfying `p`, or `|s|` when none does. */
  function IndexWhere<T>(s: seq<T>, p: T -> bool): (i: nat)
    ensures i <= |s|
    ensures i < |s| ==> p(s[i])
    ensures forall j :: 0 <= j < i ==> !p(s[j])
    decreases |s|
  {
    if s == [] then 0 else if p(s[0]) then 0 else 1 + IndexWhere(s[1..], p)
  }

  /** The first element satisfying `p`; a single-result finder that returns null when nothing matches. */
  function FirstWhere<T>(s: seq<T>, p: T -> bool): (r: Option<T>)
    ensures r.Some? ==> r.value in s && p(r.value)
    ensures r.None? <==> forall j :: 0 <= j < |s| ==> !p(s[j])
  {
    var i := IndexWhere(s, p);
    if i < |s| then Some(s[i]) else None
  }

  /** The elements satisfying `p`, in their original order. */
  function Filter<T>(s: seq<T>, p: T -> bool): (r: seq<T>)
    ensures |r| <= |s|
    ensures forall i :: 0 <= i < |r| ==> r[i] in s && p(r[i])
    ensures forall i :: 0 <= i < |s| && p(s[i]) ==> s[i] in r
    decreases |s|
  {
    if s == [] then []
    else if p(s[0]) then [s[0]] + Filter(s[1..], p)
    else Filter(s[1..], p)
  }

  /** `Filter` keeps every element satisfying `p` as many times as it occurs, and no other. */
  lemma {:induction false} FilterMultiset<T>(s: seq<T>, p: T -> bool)
    ensures forall x :: multiset(Filter(s, p))[x] == if p(x) then multiset(s)[x] else 0
    decreases |s|
  {
    if s != [] {
      FilterMultiset(s[1..], p);
      assert s == [s[0]] + s[1..];
      assert multiset(s) == multiset{s[0]} + multiset(s[1..]);
    }
  }

  /** No two rows share a primary key. */
  ghost predicate IdsDistinct<T>(rows: seq<Row<T>>)
  {
    forall i, j :: 0 <= i < j < |rows| ==> rows[i].id != rows[j].id
  }

  lemma {:induction false} FilterKeepsIdsDistinct<T>(rows: seq<Row<T>>, p: Row<T> -> bool)
    ensures IdsDistinct(rows) ==> IdsDistinct(Filter(rows, p))
    decreases |rows|
  {
    if rows != [] && IdsDistinct(rows) {
      var tail := Filter(rows[1..], p);
      assert IdsDistinct(rows[1..]) by {
        forall i, j | 0 <= i < j < |rows[1..]| ensures rows[1..][i].id != rows[1..][j].id {
          assert rows[1..][i] == rows[i + 1] && rows[1..][j] == rows[j + 1];
        }
      }
      FilterKeepsIdsDistinct(rows[1..], p);
      if p(rows[0]) {
        var r := [rows[0]] + tail;
        forall i, j | 0 <= i < j < |r| ensures r[i].id != r[j].id {
          if i == 0 {
            assert r[j] in rows[1..];
            var k :| 0 <= k < |rows[1..]| && rows[1..][k] == r[j];
            assert rows[k + 1] == r[j];
          } else {
            assert r[i] == tail[i - 1] && r[j] == tail[j - 1];
          }
        }
      }
    }
  }

  /**
   * A table: its rows in storage order and the next key the IDENTITY
   * column hands out.
   */
  datatype Table<T> = Table(rows: seq<Row<T>>, next: int) {

    /** Keys are distinct and were all handed out before `next`. */
    ghost predicate Valid() {
      && IdsDistinct(rows)
      && (forall i :: 0 <= i < |rows| ==> rows[i].id < next)
    }

    /** `findById`: the row with that key, or null. */
    function Get(id: int): (r: Option<Row<T>>)
      ensures r.Some? ==> r.value in rows && r.value.id == id
      ensures r.None? <==> forall j :: 0 <= j < |rows| ==> rows[j].id != id
    {
      FirstWhere(rows, (x: Row<T>) => x.id == id)
    }

    /** Insert a new row under a freshly generated key; returns the saved row. */
    function Insert(v: T): (r: (Table<T>, Row<T>))
      ensures r.1 == Row(next, v)
      ensures r.0.rows == rows + [r.1] && r.0.next == next + 1
      ensures Valid() ==> r.0.Valid() && r.1.id !in IdSet()
    {
      var row := Row(next, v);
      (Table(rows + [row], next + 1), row)
    }

    /** Keys in use. */
    ghost function IdSet(): (ids: set<int>) {
      set i | 0 <= i < |rows| :: rows[i].id
    }

    /** Overwrite every row stored under `row.id` with `row`; other rows are untouched. */
    function Replace(row: Row<T>): (t: Table<T>)
      ensures |t.rows| == |rows| && t.next == next
      ensures forall i :: 0 <= i < |rows| ==> t.rows[i] == (if rows[i].id == row.id then row else rows[i])
      ensures Valid() ==> t.Valid()
    {
      Table(seq(|rows|, i requires 0 <= i < |rows| => if rows[i].id == row.id then row else rows[i]), next)
    }

    /**
     * A repository's `save`: a row whose key is already stored replaces
     * that row, any other row is inserted under a new key. Returns the
     * table and the row as saved.
     */
    function Upsert(row: Row<T>): (r: (Table<T>, Row<T>))
      ensures Get(row.id).Some? ==> r == (Replace(row), row)
      ensures Get(row.id).None? ==> r == Insert(row.val)
      ensures Valid() ==> r.0.Valid()
    {
      if Get(row.id).Some? then (Replace(row), row) else Insert(row.val)
    }

    /** A derived `deleteBy…` query: drop every row whose columns satisfy `p`. */
    function RemoveWhere(p: T -> bool): (t: Table<T>)
      ensures t.next == next
      ensures forall i :: 0 <= i < |t.rows| ==> t.rows[i] in rows && !p(t.rows[i].val)
      ensures forall i :: 0 <= i < |rows| && !p(rows[i].val) ==> rows[i] in t.rows
      ensures Valid() ==> t.Valid()
    {
      FilterKeepsIdsDistinct(rows, (x: Row<T>) => !p(x.val));
      Table(Filter(rows, (x: Row<T>) => !p(x.val)), next)
    }
  }
}
