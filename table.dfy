/**
 * SQLite tables as the application sees them: a sequence of rows in rowid
 * order, each row carrying its generated id. A `SELECT` without `ORDER BY`
 * that SQLite answers by scanning the table returns its rows in that order;
 * one answered from an index returns them in the index's order, which the
 * query that does so states itself.
 * Also the two list idioms the application uses on query results: list
 * comprehension with a condition and `sorted`/`ORDER BY`.
 */
module Table {
  import opened Wrappers

  datatype Row<T> = Row(id: int, val: T)

  /** An AUTOINCREMENT table whose counter stands at `next`: ids are positive, below `next`, strictly increasing. */
  ghost predicate WellFormed<T>(t: seq<Row<T>>, next: int) {
    1 <= next &&
    (forall i :: 0 <= i < |t| ==> 1 <= t[i].id < next) &&
    (forall i, j :: 0 <= i < j < |t| ==> t[i].id < t[j].id)
  }

  /** Appending a row with the counter's value keeps a table well formed. */
  lemma AppendWellFormed<T>(t: seq<Row<T>>, next: int, v: T)
    requires WellFormed(t, next)
    ensures WellFormed(t + [Row(next, v)], next + 1)
  {
  }

  predicate HasId<T>(t: seq<Row<T>>, id: int) {
    exists i :: 0 <= i < |t| && t[i].id == id
  }

  /** Position of the first row with the given id, or `|t|`. */
  function PositionOf<T>(t: seq<Row<T>>, id: int): (k: nat)
    ensures k <= |t|
    ensures k < |t| ==> t[k].id == id
    ensures forall i :: 0 <= i < k ==> t[i].id != id
  {
    if t == [] then 0 else if t[0].id == id then 0 else 1 + PositionOf(t[1..], id)
  }

  /** `SELECT * FROM t WHERE id = ?` with `fetchone()`: the first row with that id, if any. */
  function Find<T>(t: seq<Row<T>>, id: int): (r: Option<Row<T>>)
    ensures r.None? <==> !HasId(t, id)
    ensures r.Some? ==> r.value in t && r.value.id == id
  {
    var k := PositionOf(t, id);
    if k < |t| then Some(t[k]) else None
  }

  /** In a well-formed table the row found by id is the only row with that id. */
  lemma FindUnique<T>(t: seq<Row<T>>, next: int, i: int)
    requires WellFormed(t, next) && 0 <= i < |t|
    ensures Find(t, t[i].id) == Some(t[i])
  {
  }

  /** `[x for x in s if p(x)]`. */
  function Filter<T>(s: seq<T>, p: T -> bool): (r: seq<T>)
    ensures |r| <= |s|
    ensures forall i :: 0 <= i < |r| ==> r[i] in s && p(r[i])
    ensures forall i :: 0 <= i < |s| && p(s[i]) ==> s[i] in r
    ensures multiset(r) <= multiset(s)
  {
    if s == [] then []
    else
      assert s == [s[0]] + s[1..];
      if p(s[0]) then [s[0]] + Filter(s[1..], p) else Filter(s[1..], p)
  }

  /** Position of the first element satisfying `p`: the `for ... if p(x): ... break` search. */
  function FirstWhere<T>(s: seq<T>, p: T -> bool): (r: Option<nat>)
    ensures r.Some? ==> r.value < |s| && p(s[r.value])
    ensures r.Some? ==> forall i :: 0 <= i < r.value ==> !p(s[i])
    ensures r.None? ==> forall i :: 0 <= i < |s| ==> !p(s[i])
  {
    if s == [] then None
    else if p(s[0]) then Some(0)
    else match FirstWhere(s[1..], p)
      case None => None
      case Some(k) => Some(k + 1)
  }

  /** Any position with `p` and none before it is the one `FirstWhere` finds. */
  lemma {:induction false} FirstWhereAt<T>(s: seq<T>, p: T -> bool, k: nat)
    requires k < |s| && p(s[k])
    requires forall j :: 0 <= j < k ==> !p(s[j])
    ensures FirstWhere(s, p) == Some(k)
  {
    if k > 0 {
      FirstWhereAt(s[1..], p, k - 1);
    }
  }

  /** The `for x in s: if p(x): ... break` loop: the position of the first match, if any. */
  method FindFirst<T>(s: seq<T>, p: T -> bool) returns (r: Option<nat>)
    ensures r == FirstWhere(s, p)
  {
    for i := 0 to |s|
      invariant forall j :: 0 <= j < i ==> !p(s[j])
    {
      if p(s[i]) {
        FirstWhereAt(s, p, i);
        return Some(i);
      }
    }
    return None;
  }

  /** A filtered table keeps the rowid order. */
  lemma {:induction false} FilterWellFormed<T>(t: seq<Row<T>>, next: int, p: Row<T> -> bool)
    requires WellFormed(t, next)
    ensures WellFormed(Filter(t, p), next)
  {
    if t != [] {
      FilterWellFormed(t[1..], next, p);
      var rest := Filter(t[1..], p);
      if p(t[0]) {
        forall j | 0 <= j < |rest| ensures t[0].id < rest[j].id {
          assert rest[j] in t[1..];
          var k :| 0 <= k < |t[1..]| && t[1..][k] == rest[j];
          assert t[k + 1] == rest[j];
        }
        ConsWellFormed(t[0], rest, next);
      }
    }
  }

  lemma ConsWellFormed<T>(x: Row<T>, rest: seq<Row<T>>, next: int)
    requires WellFormed(rest, next) && 1 <= x.id < next
    requires forall j :: 0 <= j < |rest| ==> x.id < rest[j].id
    ensures WellFormed([x] + rest, next)
  {
    var t := [x] + rest;
    forall i, j | 0 <= i < j < |t| ensures t[i].id < t[j].id {
      if i > 0 {
        assert t[i] == rest[i - 1] && t[j] == rest[j - 1];
      } else {
        assert t[j] == rest[j - 1];
      }
    }
  }

  /** The first element a filter keeps is the first element of the input that satisfies the condition. */
  lemma {:induction false} FilterHead<T>(s: seq<T>, p: T -> bool, k: nat)
    requires k < |s| && p(s[k]) && forall i :: 0 <= i < k ==> !p(s[i])
    ensures Filter(s, p) != [] && Filter(s, p)[0] == s[k]
  {
    if k > 0 {
      FilterHead(s[1..], p, k - 1);
    }
  }

  /** A filter that keeps nothing: no element satisfies the condition. */
  lemma FilterEmpty<T>(s: seq<T>, p: T -> bool)
    requires Filter(s, p) == []
    ensures forall i :: 0 <= i < |s| ==> !p(s[i])
  {
    forall i | 0 <= i < |s| ensures !p(s[i]) {
      assert s[i] in s;
    }
  }

  /** The positions at or after `lo` whose element satisfies `p`, in increasing order. */
  function Positions<T>(s: seq<T>, p: T -> bool, lo: nat): (r: seq<nat>)
    ensures forall k :: 0 <= k < |r| ==> lo <= r[k] < |s| && p(s[r[k]])
    ensures forall k, l :: 0 <= k < l < |r| ==> r[k] < r[l]
    ensures forall i :: lo <= i < |s| && p(s[i]) ==> i in r
    decreases |s| - lo
  {
    if lo >= |s| then []
    else (if p(s[lo]) then [lo] else []) + Positions(s, p, lo + 1)
  }

  /**
   * `Filter` keeps the elements at exactly the positions where `p` holds, and
   * keeps them in their original order.
   */
  lemma {:induction false} FilterAtPositions<T>(s: seq<T>, p: T -> bool, lo: nat)
    requires lo <= |s|
    ensures |Filter(s[lo..], p)| == |Positions(s, p, lo)|
    ensures forall k :: 0 <= k < |Positions(s, p, lo)| ==> Filter(s[lo..], p)[k] == s[Positions(s, p, lo)[k]]
    decreases |s| - lo
  {
    if lo < |s| {
      var t := s[lo..];
      assert t[0] == s[lo] && t[1..] == s[lo + 1..];
      FilterAtPositions(s, p, lo + 1);
      var rest, pos := Filter(s[lo + 1..], p), Positions(s, p, lo + 1);
      if p(s[lo]) {
        var kept, at := Filter(t, p), Positions(s, p, lo);
        assert kept == [s[lo]] + rest;
        assert at == [lo] + pos;
        forall k | 0 <= k < |at| ensures kept[k] == s[at[k]] {
          if k > 0 {
            assert kept[k] == rest[k - 1] && at[k] == pos[k - 1];
          }
        }
      } else {
        assert Filter(t, p) == rest;
        assert Positions(s, p, lo) == pos;
      }
    }
  }

  /** Filtering a sequence without repeats gives a sequence without repeats. */
  lemma FilterDistinct<T>(s: seq<T>, p: T -> bool)
    requires forall i, j :: 0 <= i < j < |s| ==> s[i] != s[j]
    ensures forall i, j :: 0 <= i < j < |Filter(s, p)| ==> Filter(s, p)[i] != Filter(s, p)[j]
  {
    assert s[0..] == s;
    FilterAtPositions(s, p, 0);
  }

  /** `UPDATE t SET ... WHERE p`: every row satisfying `p` has its record replaced by `f` of it; ids and order stay. */
  function UpdateWhere<T>(t: seq<Row<T>>, p: Row<T> -> bool, f: T -> T): (r: seq<Row<T>>)
    ensures |r| == |t|
    ensures forall i :: 0 <= i < |t| ==> r[i].id == t[i].id
    ensures forall i :: 0 <= i < |t| ==> r[i].val == if p(t[i]) then f(t[i].val) else t[i].val
  {
    if t == [] then []
    else [if p(t[0]) then Row(t[0].id, f(t[0].val)) else t[0]] + UpdateWhere(t[1..], p, f)
  }

  /** An update whose condition holds for no row changes nothing. */
  lemma UpdateNothing<T>(t: seq<Row<T>>, p: Row<T> -> bool, f: T -> T)
    requires forall i :: 0 <= i < |t| ==> !p(t[i])
    ensures UpdateWhere(t, p, f) == t
  {
    var r := UpdateWhere(t, p, f);
    assert forall i :: 0 <= i < |t| ==> r[i] == t[i];
  }

  /** An update that hits only a just-appended row changes only that row. */
  lemma {:induction false} UpdateLast<T>(t: seq<Row<T>>, row: Row<T>, p: Row<T> -> bool, f: T -> T)
    requires forall i :: 0 <= i < |t| ==> !p(t[i])
    requires p(row)
    ensures UpdateWhere(t + [row], p, f) == t + [Row(row.id, f(row.val))]
  {
    if t == [] {
      assert [row][1..] == [];
    } else {
      assert (t + [row])[0] == t[0] && (t + [row])[1..] == t[1..] + [row];
      UpdateLast(t[1..], row, p, f);
      assert t == [t[0]] + t[1..];
    }
  }

  lemma UpdateWellFormed<T>(t: seq<Row<T>>, next: int, p: Row<T> -> bool, f: T -> T)
    requires WellFormed(t, next)
    ensures WellFormed(UpdateWhere(t, p, f), next)
  {
  }

  // ---------------------------------------------------------------- ordering

  /** `le` is a total preorder: any two elements compare, and comparison chains. */
  ghost predicate TotalPreorder<T(!new)>(le: (T, T) -> bool) {
    (forall a, b :: le(a, b) || le(b, a)) &&
    (forall a, b, c :: le(a, b) && le(b, c) ==> le(a, c))
  }

  predicate SortedBy<T>(s: seq<T>, le: (T, T) -> bool) {
    forall i, j :: 0 <= i < j < |s| ==> le(s[i], s[j])
  }

  /** Places `x` before the first element it may precede; equal elements already present stay after it. */
  function Insert<T>(x: T, s: seq<T>, le: (T, T) -> bool): (r: seq<T>)
    ensures multiset(r) == multiset(s) + multiset{x}
    ensures |r| == |s| + 1
  {
    if s == [] then [x]
    else if le(x, s[0]) then [x] + s
    else
      assert s == [s[0]] + s[1..];
      [s[0]] + Insert(x, s[1..], le)
  }

  /**
   * A stable sort: Python's `sorted(s, key=...)`. For an SQLite `ORDER BY`,
   * which leaves the order of rows that compare equal unspecified, it is one
   * of the orders SQLite may return.
   */
  function SortBy<T>(s: seq<T>, le: (T, T) -> bool): (r: seq<T>)
    ensures multiset(r) == multiset(s)
    ensures |r| == |s|
  {
    if s == [] then [] else
      var rest := SortBy(s[1..], le);
      assert s == [s[0]] + s[1..];
      Insert(s[0], rest, le)
  }

  lemma {:induction false} InsertSorted<T(!new)>(x: T, s: seq<T>, le: (T, T) -> bool)
    requires TotalPreorder(le) && SortedBy(s, le)
    ensures SortedBy(Insert(x, s, le), le)
  {
    if s != [] && !le(x, s[0]) {
      InsertSorted(x, s[1..], le);
      var r := Insert(x, s[1..], le);
      forall j | 0 <= j < |r| ensures le(s[0], r[j]) {
        assert r[j] in multiset(r);
        if r[j] != x {
          assert r[j] in multiset(s[1..]);
          var k :| 0 <= k < |s[1..]| && s[1..][k] == r[j];
          assert s[k + 1] == r[j];
        }
      }
    }
  }

  /** The sorted sequence is sorted and holds the same elements. */
  lemma {:induction false} SortBySorted<T(!new)>(s: seq<T>, le: (T, T) -> bool)
    requires TotalPreorder(le)
    ensures SortedBy(SortBy(s, le), le)
    ensures multiset(SortBy(s, le)) == multiset(s)
  {
    if s != [] {
      SortBySorted(s[1..], le);
      InsertSorted(s[0], SortBy(s[1..], le), le);
    }
  }

  /** Membership survives sorting. */
  lemma SortByMembers<T(!new)>(s: seq<T>, le: (T, T) -> bool)
    ensures forall x :: x in SortBy(s, le) <==> x in s
  {
    var r := SortBy(s, le);
    forall x ensures x in r <==> x in s {
      assert x in r <==> x in multiset(r);
      assert x in s <==> x in multiset(s);
    }
  }

  /** `x` ranks the same as `y` under `le`. */
  function TiedWith<T>(le: (T, T) -> bool, y: T): T -> bool {
    (x: T) => le(x, y) && le(y, x)
  }

  /** Inserting `x` adds it to the elements tied with `y` at the front, if it is one of them. */
  lemma {:induction false} InsertStable<T(!new)>(x: T, s: seq<T>, le: (T, T) -> bool, y: T)
    requires TotalPreorder(le)
    ensures var tied := TiedWith(le, y);
      Filter(Insert(x, s, le), tied) == if tied(x) then [x] + Filter(s, tied) else Filter(s, tied)
  {
    var tied := TiedWith(le, y);
    if s == [] {
    } else if le(x, s[0]) {
      assert ([x] + s)[1..] == s;
    } else {
      InsertStable(x, s[1..], le, y);
      assert tied(x) ==> !tied(s[0]);
      assert ([s[0]] + Insert(x, s[1..], le))[1..] == Insert(x, s[1..], le);
    }
  }

  /**
   * The sort is stable: the elements that rank the same as any `y` come out
   * in the order they went in.
   */
  lemma {:induction false} SortByStable<T(!new)>(s: seq<T>, le: (T, T) -> bool, y: T)
    requires TotalPreorder(le)
    ensures Filter(SortBy(s, le), TiedWith(le, y)) == Filter(s, TiedWith(le, y))
  {
    if s != [] {
      SortByStable(s[1..], le, y);
      InsertStable(s[0], SortBy(s[1..], le), le, y);
    }
  }

  /** Sorting what is already sorted changes nothing. */
  lemma {:induction false} SortByOfSorted<T>(s: seq<T>, le: (T, T) -> bool)
    requires SortedBy(s, le)
    ensures SortBy(s, le) == s
  {
    if s != [] {
      assert SortedBy(s[1..], le) by {
        forall i, j | 0 <= i < j < |s[1..]| ensures le(s[1..][i], s[1..][j]) {
          assert s[1..][i] == s[i + 1] && s[1..][j] == s[j + 1];
        }
      }
      SortByOfSorted(s[1..], le);
      assert s == [s[0]] + s[1..];
    }
  }
}
