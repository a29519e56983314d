/**
 * The sort behind `sortedRows`: `[...rows].sort(comparator)` where the
 * comparator puts null/undefined keys last in both directions and otherwise
 * compares keys, negated for `desc`. ECMAScript requires `Array.prototype.sort`
 * to be stable, so the sort is modelled as a stable insertion sort, and
 * SortedIsUnique shows that no other stable sort could give another order.
 */
module Sorting {
  import opened Wrappers
  import opened Rows

  datatype Direction = Asc | Desc

  /** The comparator passed to `sort` (data-table.tsx, lines 173-183). */
  function Compare(a: Option<int>, b: Option<int>, dir: Direction): (c: int)
    ensures -1 <= c <= 1
    ensures c == 0 <==> a == b
    ensures a != b && a.None? ==> c == 1
    ensures a.Some? && b.None? ==> c == -1
    ensures a.Some? && b.Some? && a != b ==>
      (c < 0 <==> (if dir == Asc then a.value < b.value else a.value > b.value))
  {
    if a == b then 0
    else if a.None? then 1
    else if b.None? then -1
    else
      var comparison := if a.value < b.value then -1 else 1;
      if dir == Asc then comparison else -comparison
  }

  /** `a` may stand before `b`. */
  predicate InOrder(a: Option<int>, b: Option<int>, dir: Direction) {
    Compare(a, b, dir) <= 0
  }

  /** The comparator is consistent: swapping its arguments negates it. */
  lemma CompareAntisymmetric(a: Option<int>, b: Option<int>, dir: Direction)
    ensures Compare(b, a, dir) == -Compare(a, b, dir)
  {
  }

  lemma InOrderTransitive(a: Option<int>, b: Option<int>, c: Option<int>, dir: Direction)
    requires InOrder(a, b, dir) && InOrder(b, c, dir)
    ensures InOrder(a, c, dir)
  {
  }

  predicate Sorted(s: seq<Row>, col: string, dir: Direction) {
    forall i, j :: 0 <= i < j < |s| ==> InOrder(Cell(s[i], col), Cell(s[j], col), dir)
  }

  /** The rows of `s` whose key in column `col` is `k`, in their order in `s`. */
  function WithKey(s: seq<Row>, col: string, k: Option<int>): (r: seq<Row>)
    ensures |r| <= |s|
    ensures forall i :: 0 <= i < |r| ==> Cell(r[i], col) == k
  {
    if s == [] then []
    else (if Cell(s[0], col) == k then [s[0]] else []) + WithKey(s[1..], col, k)
  }

  /** Places `x` before the first row it may precede, hence before the rows that tie with it. */
  function Insert(x: Row, s: seq<Row>, col: string, dir: Direction): (r: seq<Row>)
    ensures |r| == |s| + 1
    ensures multiset(r) == multiset(s) + multiset{x}
  {
    if s == [] || InOrder(Cell(x, col), Cell(s[0], col), dir) then [x] + s
    else
      assert s == [s[0]] + s[1..];
      [s[0]] + Insert(x, s[1..], col, dir)
  }

  /** A stable sort of `s` by column `col` in direction `dir`. */
  function SortRows(s: seq<Row>, col: string, dir: Direction): (r: seq<Row>)
    ensures |r| == |s|
    ensures multiset(r) == multiset(s)
  {
    if s == [] then []
    else
      assert s == [s[0]] + s[1..];
      Insert(s[0], SortRows(s[1..], col, dir), col, dir)
  }

  /**
   * `sortedRows` (lines 170-184): no sort column, or a falsy one (the empty
   * field name), leaves `rows` as they are; otherwise a sorted copy.
   */
  function SortedRows(rows: seq<Row>, sortColumn: Option<string>, dir: Direction): (r: seq<Row>)
    ensures sortColumn.None? || sortColumn.value == "" ==> r == rows
    ensures multiset(r) == multiset(rows)
    ensures sortColumn.Some? && sortColumn.value != "" ==> Sorted(r, sortColumn.value, dir)
  {
    if sortColumn.None? || sortColumn.value == "" then rows
    else
      SortRowsSorted(rows, sortColumn.value, dir);
      SortRows(rows, sortColumn.value, dir)
  }

  lemma {:induction false} InsertSorted(x: Row, s: seq<Row>, col: string, dir: Direction)
    requires Sorted(s, col, dir)
    ensures Sorted(Insert(x, s, col, dir), col, dir)
  {
    var kx := Cell(x, col);
    if s == [] || InOrder(kx, Cell(s[0], col), dir) {
      var r := [x] + s;
      forall i, j | 0 <= i < j < |r|
        ensures InOrder(Cell(r[i], col), Cell(r[j], col), dir)
      {
        if i == 0 && j > 1 {
          InOrderTransitive(kx, Cell(s[0], col), Cell(s[j - 1], col), dir);
        }
      }
    } else {
      var rest := Insert(x, s[1..], col, dir);
      InsertSorted(x, s[1..], col, dir);
      var r := [s[0]] + rest;
      var k0 := Cell(s[0], col);
      CompareAntisymmetric(kx, k0, dir);
      forall j | 0 <= j < |rest|
        ensures InOrder(k0, Cell(rest[j], col), dir)
      {
        assert rest[j] in multiset(rest);
        if rest[j] != x {
          assert rest[j] in multiset(s[1..]);
          var m :| 0 <= m < |s[1..]| && s[1..][m] == rest[j];
          assert s[m + 1] == rest[j];
        }
      }
      forall i, j | 0 <= i < j < |r|
        ensures InOrder(Cell(r[i], col), Cell(r[j], col), dir)
      {
        if i == 0 {
          assert r[j] == rest[j - 1];
        } else {
          assert r[i] == rest[i - 1] && r[j] == rest[j - 1];
        }
      }
    }
  }

  /** The output of the sort is ordered by the comparator. */
  lemma {:induction false} SortRowsSorted(s: seq<Row>, col: string, dir: Direction)
    ensures Sorted(SortRows(s, col, dir), col, dir)
  {
    if s != [] {
      SortRowsSorted(s[1..], col, dir);
      InsertSorted(s[0], SortRows(s[1..], col, dir), col, dir);
    }
  }

  lemma WithKeyCons(x: Row, s: seq<Row>, col: string, k: Option<int>)
    ensures WithKey([x] + s, col, k) == (if Cell(x, col) == k then [x] else []) + WithKey(s, col, k)
  {
    assert ([x] + s)[1..] == s;
  }

  /** Inserting `x` changes only the class of its own key, where `x` comes first. */
  lemma {:induction false} InsertStable(x: Row, s: seq<Row>, col: string, dir: Direction, k: Option<int>)
    ensures WithKey(Insert(x, s, col, dir), col, k)
         == (if Cell(x, col) == k then [x] else []) + WithKey(s, col, k)
  {
    if s == [] || InOrder(Cell(x, col), Cell(s[0], col), dir) {
      WithKeyCons(x, s, col, k);
    } else {
      InsertStable(x, s[1..], col, dir, k);
      InsertStableStep(x, s, col, dir, k);
    }
  }

  /** The step of InsertStable where `x` passes `s[0]`, whose key differs from that of `x`. */
  lemma InsertStableStep(x: Row, s: seq<Row>, col: string, dir: Direction, k: Option<int>)
    requires s != [] && !InOrder(Cell(x, col), Cell(s[0], col), dir)
    requires WithKey(Insert(x, s[1..], col, dir), col, k)
          == (if Cell(x, col) == k then [x] else []) + WithKey(s[1..], col, k)
    ensures WithKey(Insert(x, s, col, dir), col, k)
         == (if Cell(x, col) == k then [x] else []) + WithKey(s, col, k)
  {
  }

  /** Stability: rows with equal keys keep their original relative order. */
  lemma {:induction false} SortRowsStable(s: seq<Row>, col: string, dir: Direction, k: Option<int>)
    ensures WithKey(SortRows(s, col, dir), col, k) == WithKey(s, col, k)
  {
    if s != [] {
      SortRowsStable(s[1..], col, dir, k);
      InsertStable(s[0], SortRows(s[1..], col, dir), col, dir, k);
    }
  }

  /**
   * What the order means for the keys: null/undefined keys come after every
   * other key in both directions, and the other keys ascend for `Asc` and
   * descend for `Desc`.
   */
  lemma SortedKeyOrder(s: seq<Row>, col: string, dir: Direction, i: int, j: int)
    requires 0 <= i < j < |s|
    ensures var r := SortRows(s, col, dir);
      && (Cell(r[i], col).None? ==> Cell(r[j], col).None?)
      && (Cell(r[i], col).Some? && Cell(r[j], col).Some? ==>
            if dir == Asc then Cell(r[i], col).value <= Cell(r[j], col).value
            else Cell(r[i], col).value >= Cell(r[j], col).value)
  {
    SortRowsSorted(s, col, dir);
  }

  lemma WithKeyOfHead(s: seq<Row>, col: string)
    requires s != []
    ensures WithKey(s, col, Cell(s[0], col)) != []
  {
  }

  /** A non-empty key class names a row of `s` that carries the key. */
  lemma {:induction false} WithKeyWitness(s: seq<Row>, col: string, k: Option<int>) returns (j: int)
    requires WithKey(s, col, k) != []
    ensures 0 <= j < |s| && Cell(s[j], col) == k
  {
    if Cell(s[0], col) == k {
      j := 0;
    } else {
      var j' := WithKeyWitness(s[1..], col, k);
      j := j' + 1;
    }
  }

  /** Two ordered sequences with the same key classes start with the same row. */
  lemma SortedHeadsAgree(a: seq<Row>, b: seq<Row>, col: string, dir: Direction)
    requires a != [] && b != []
    requires Sorted(a, col, dir) && Sorted(b, col, dir)
    requires forall k :: WithKey(a, col, k) == WithKey(b, col, k)
    ensures a[0] == b[0]
  {
    var ka, kb := Cell(a[0], col), Cell(b[0], col);
    assert WithKey(a, col, ka) == [a[0]] + WithKey(a[1..], col, ka);
    assert WithKey(b, col, kb) == [b[0]] + WithKey(b[1..], col, kb);
    var jb := WithKeyWitness(b, col, ka);
    var ja := WithKeyWitness(a, col, kb);
    assert InOrder(kb, ka, dir) by {
      if jb > 0 { assert InOrder(Cell(b[0], col), Cell(b[jb], col), dir); }
    }
    assert InOrder(ka, kb, dir) by {
      if ja > 0 { assert InOrder(Cell(a[0], col), Cell(a[ja], col), dir); }
    }
    CompareAntisymmetric(ka, kb, dir);
    assert ka == kb;
  }

  /** Dropping a common first row keeps the key classes equal. */
  lemma TailsAgree(a: seq<Row>, b: seq<Row>, col: string)
    requires a != [] && b != [] && a[0] == b[0]
    requires forall k :: WithKey(a, col, k) == WithKey(b, col, k)
    ensures forall k :: WithKey(a[1..], col, k) == WithKey(b[1..], col, k)
  {
    forall k
      ensures WithKey(a[1..], col, k) == WithKey(b[1..], col, k)
    {
      assert WithKey(a, col, k) == WithKey(b, col, k);
      if Cell(a[0], col) == k {
        assert WithKey(a[1..], col, k) == WithKey(a, col, k)[1..];
        assert WithKey(b[1..], col, k) == WithKey(b, col, k)[1..];
      } else {
        assert WithKey(a, col, k) == WithKey(a[1..], col, k);
        assert WithKey(b, col, k) == WithKey(b[1..], col, k);
      }
    }
  }

  /**
   * Uniqueness: two sequences that are both ordered by the comparator and
   * agree on every key class are equal. Any stable sort of the same rows must
   * therefore produce exactly SortRows (see SortRowsIsTheStableSort).
   */
  lemma {:induction false} SortedIsUnique(a: seq<Row>, b: seq<Row>, col: string, dir: Direction)
    requires Sorted(a, col, dir) && Sorted(b, col, dir)
    requires forall k :: WithKey(a, col, k) == WithKey(b, col, k)
    ensures a == b
  {
    if a == [] && b == [] {
      return;
    } else if a == [] {
      WithKeyOfHead(b, col);
      assert false;
    } else if b == [] {
      WithKeyOfHead(a, col);
      assert false;
    }
    SortedHeadsAgree(a, b, col, dir);
    TailsAgree(a, b, col);
    SortedIsUnique(a[1..], b[1..], col, dir);
    assert a == [a[0]] + a[1..] && b == [b[0]] + b[1..];
  }

  /**
   * SortRows is the only order a conforming stable `Array.prototype.sort`
   * can produce: any ordered, stable rearrangement of `s` equals it.
   */
  lemma SortRowsIsTheStableSort(s: seq<Row>, r: seq<Row>, col: string, dir: Direction)
    requires Sorted(r, col, dir)
    requires forall k :: WithKey(r, col, k) == WithKey(s, col, k)
    ensures r == SortRows(s, col, dir)
  {
    SortRowsSorted(s, col, dir);
    forall k ensures WithKey(r, col, k) == WithKey(SortRows(s, col, dir), col, k) {
      SortRowsStable(s, col, dir, k);
    }
    SortedIsUnique(r, SortRows(s, col, dir), col, dir);
  }
}
