/**
  The leftmost changed column of every row of an index, as the program that analyzeOneTable of
  sqlcipher/src/analyze.c emits finds it: which columns it compares, and which rows it does not compare.
 */
module ChangeColumns {
  import opened PrefixGroups

  /**
    What is compared: nColTest columns; and in an index of one UNIQUE column, whose other column is the
    rowid, nothing any more once a row has had a value other than NULL.
   */
  datatype Test = Test(nColTest: nat, oneUnique: bool, nullKey: int)

  /** nColTest is less than the number of columns, and 1 in an index of one UNIQUE column. */
  predicate Fits(test: Test, n: nat) {
    test.nColTest < n && (test.oneUnique ==> test.nColTest == 1)
  }

  /** Rows of n columns, in strictly ascending order. */
  ghost predicate SortedIndex(rows: seq<Row>, n: nat) {
    n > 0 && (forall r :: r in rows ==> |r| == n) && forall t :: 0 < t < |rows| ==> Ascends(rows, n, t)
  }

  ghost predicate Ascends(rows: seq<Row>, n: nat, t: nat)
    requires 0 < t < |rows|
  {
    n <= |rows[t - 1]| && n <= |rows[t]| && Before(rows[t - 1], rows[t], n)
  }

  /** x is the first of w columns in which the rows differ, or w. */
  predicate IsChange(a: Row, b: Row, w: nat, x: nat)
    requires w <= |a| && w <= |b|
  {
    x <= w && a[..x] == b[..x] && (x < w ==> a[x] != b[x])
  }

  predicate Skips(test: Test, regPrev: Row)
    requires Fits(test, test.nColTest + 1) && |regPrev| == test.nColTest
  {
    test.oneUnique && regPrev[0] != test.nullKey
  }

  /** next_row to endDistinctTest: regPrev are the registers with the compared columns of the row before. */
  method NextChange(regPrev: Row, regChng: nat, idx: Row, test: Test) returns (regPrev': Row, regChng': nat)
    requires Fits(test, |idx|) && |regPrev| == test.nColTest
    ensures Skips(test, regPrev) ==> regPrev' == regPrev && regChng' == regChng
    ensures !Skips(test, regPrev) ==>
      regPrev' == idx[..test.nColTest] && IsChange(regPrev, idx, test.nColTest, regChng')
  {
    if test.oneUnique && regPrev[0] != test.nullKey { return regPrev, regChng; }
    regChng' := 0;
    while regChng' < test.nColTest && idx[regChng'] == regPrev[regChng']
      invariant regChng' <= test.nColTest && regPrev[..regChng'] == idx[..regChng']
    {
      regChng' := regChng' + 1;
    }
    regPrev' := regPrev[..regChng'] + idx[regChng'..test.nColTest];
  }

  /** One of the first t rows has a value in its first column. */
  ghost predicate ValueBefore(rows: seq<Row>, nullKey: int, t: nat) {
    exists s :: 0 <= s < t && s < |rows| && HasValue(rows[s], nullKey)
  }

  predicate HasValue(r: Row, nullKey: int) {
    |r| > 0 && r[0] != nullKey
  }

  /** Row t is not compared. */
  ghost predicate SkippedAt(rows: seq<Row>, test: Test, t: nat) {
    test.oneUnique && ValueBefore(rows, test.nullKey, t)
  }

  /** The column that row t is reported with. */
  ghost predicate ReportedAt(rows: seq<Row>, n: nat, test: Test, t: nat, x: nat)
    requires t < |rows| && Fits(test, n) && forall r :: r in rows ==> |r| == n
  {
    if t == 0 || SkippedAt(rows, test, t) then x == 0 else IsChange(rows[t - 1], rows[t], test.nColTest, x)
  }

  ghost predicate Reported(rows: seq<Row>, n: nat, test: Test, c: seq<nat>)
    requires Fits(test, n) && forall r :: r in rows ==> |r| == n
  {
    |c| <= |rows| && forall t :: 0 <= t < |c| ==> ReportedAt(rows, n, test, t, c[t])
  }

  /** What the registers hold before row k is looked at. */
  ghost predicate Registers(rows: seq<Row>, n: nat, test: Test, k: nat, regPrev: Row, regChng: nat)
    requires 0 < k <= |rows| && Fits(test, n) && forall r :: r in rows ==> |r| == n
  {
    && |regPrev| == test.nColTest
    && (Skips(test, regPrev) <==> SkippedAt(rows, test, k))
    && if SkippedAt(rows, test, k) then regChng == 0 else regPrev == rows[k - 1][..test.nColTest]
  }

  /** The registers follow the rows. */
  lemma RegistersFollow(rows: seq<Row>, n: nat, test: Test, k: nat, regPrev: Row, regChng: nat, regPrev': Row,
                        regChng': nat)
    requires 0 < k < |rows| && Fits(test, n) && forall r :: r in rows ==> |r| == n
    requires Registers(rows, n, test, k, regPrev, regChng)
    requires Skips(test, regPrev) ==> regPrev' == regPrev && regChng' == regChng
    requires !Skips(test, regPrev) ==>
      regPrev' == rows[k][..test.nColTest] && IsChange(regPrev, rows[k], test.nColTest, regChng')
    ensures ReportedAt(rows, n, test, k, regChng') && |regPrev'| == test.nColTest
    ensures Registers(rows, n, test, k + 1, regPrev', regChng')
  {
    if test.oneUnique {
      assert HasValue(rows[k], test.nullKey) <==> rows[k][0] != test.nullKey;
      assert ValueBefore(rows, test.nullKey, k + 1) <==>
        ValueBefore(rows, test.nullKey, k) || HasValue(rows[k], test.nullKey);
      if !SkippedAt(rows, test, k) {
        assert !HasValue(rows[k - 1], test.nullKey);
        assert regPrev[0] == test.nullKey;
      }
    }
  }

  lemma RegistersStart(rows: seq<Row>, n: nat, test: Test)
    requires rows != [] && Fits(test, n) && forall r :: r in rows ==> |r| == n
    ensures Registers(rows, n, test, 1, rows[0][..test.nColTest], 0) && ReportedAt(rows, n, test, 0, 0)
  {
    if test.oneUnique {
      assert HasValue(rows[0], test.nullKey) <==> rows[0][0] != test.nullKey;
    }
  }

  lemma ReportedStart(rows: seq<Row>, n: nat, test: Test)
    requires Fits(test, n) && forall r :: r in rows ==> |r| == n
    ensures Reported(rows, n, test, [])
  {
  }

  lemma ReportedNext(rows: seq<Row>, n: nat, test: Test, c: seq<nat>, x: nat)
    requires Fits(test, n) && (forall r :: r in rows ==> |r| == n) && Reported(rows, n, test, c) && |c| < |rows|
    requires ReportedAt(rows, n, test, |c|, x)
    ensures Reported(rows, n, test, c + [x]) && x < n
  {
  }

  // ---------------------------------------------------------------------------------------------
  // When the reported columns are the right ones

  /** The columns compared tell row t from the one before; if it is not compared, the first column does. */
  ghost predicate ToldApart(rows: seq<Row>, n: nat, test: Test, t: nat)
    requires 0 < t < |rows| && Fits(test, n) && forall r :: r in rows ==> |r| == n
  {
    if SkippedAt(rows, test, t) then rows[t - 1][0] != rows[t][0]
    else rows[t - 1][..test.nColTest + 1] != rows[t][..test.nColTest + 1]
  }

  ghost predicate AllToldApart(rows: seq<Row>, n: nat, test: Test)
    requires Fits(test, n) && forall r :: r in rows ==> |r| == n
  {
    forall t :: 0 < t < |rows| ==> ToldApart(rows, n, test, t)
  }

  lemma ChangeRises(a: Row, b: Row, n: nat, w: nat, x: nat)
    requires |a| == |b| == n && Before(a, b, n) && w < n && IsChange(a, b, w, x)
    ensures DiffersAt(a, b, x) <==> a[..w + 1] != b[..w + 1]
  {
    var d :| 0 <= d < n && DiffersAt(a, b, d);
    OneDifference(a, b, d, w + 1);
    if x < w {
      OneDifference(a, b, d, x + 1);
      assert a[..x + 1][x] == a[x] && b[..x + 1][x] == b[x];
      OneDifference(a, b, d, x);
      assert d == x;
    } else {
      OneDifference(a, b, d, w);
    }
  }

  /** The first differing columns are reported if and only if the compared columns tell all rows apart. */
  lemma ReportedExactly(rows: seq<Row>, n: nat, test: Test, c: seq<nat>)
    requires SortedIndex(rows, n) && Fits(test, n) && |c| == |rows| && Reported(rows, n, test, c)
    ensures SortedRun(rows, c, n) <==> AllToldApart(rows, n, test)
  {
    forall t: nat | 0 < t < |rows| ensures c[t] < n && (RisesAt(rows, c, t) <==> ToldApart(rows, n, test, t)) {
      assert ReportedAt(rows, n, test, t, c[t]) && Ascends(rows, n, t);
      if SkippedAt(rows, test, t) {
        assert IsChange(rows[t - 1], rows[t], 0, 0);
        ChangeRises(rows[t - 1], rows[t], n, 0, 0);
        assert rows[t - 1][..1] == [rows[t - 1][0]] && rows[t][..1] == [rows[t][0]];
      } else {
        ChangeRises(rows[t - 1], rows[t], n, test.nColTest, c[t]);
      }
    }
    if rows != [] { assert ReportedAt(rows, n, test, 0, c[0]); }
  }

  /** All columns but the last are compared: no two rows are equal, so that is enough. */
  lemma AllColumnsTellApart(rows: seq<Row>, n: nat, nullKey: int)
    requires SortedIndex(rows, n)
    ensures AllToldApart(rows, n, Test(n - 1, false, nullKey))
  {
    var test := Test(n - 1, false, nullKey);
    forall t: nat | 0 < t < |rows| ensures ToldApart(rows, n, test, t) {
      assert Ascends(rows, n, t);
      var d :| 0 <= d < n && DiffersAt(rows[t - 1], rows[t], d);
      assert rows[t - 1][..n][d] != rows[t][..n][d];
    }
  }

  /** One of the first k columns is NULL. */
  predicate HasNull(r: Row, k: nat, nullKey: int)
    requires k <= |r|
  {
    exists i :: 0 <= i < k && r[i] == nullKey
  }

  /**
    In a UNIQUE NOT NULL index all key columns but the last are compared, and that is enough: UNIQUE allows
    equal keys only with a NULL in them, and there is none.
   */
  lemma KeyTellsApart(rows: seq<Row>, n: nat, nKeyCol: nat, nullKey: int)
    requires SortedIndex(rows, n) && 0 < nKeyCol <= n
    requires forall s, t :: 0 <= s < t < |rows| && rows[s][..nKeyCol] == rows[t][..nKeyCol] ==>
      HasNull(rows[t], nKeyCol, nullKey)
    requires forall t :: 0 <= t < |rows| ==> !HasNull(rows[t], nKeyCol, nullKey)
    ensures AllToldApart(rows, n, Test(nKeyCol - 1, false, nullKey))
  {
    var test := Test(nKeyCol - 1, false, nullKey);
    forall t: nat | 0 < t < |rows| ensures ToldApart(rows, n, test, t) {
      assert !HasNull(rows[t], nKeyCol, nullKey);
    }
  }

  /**
    In an index of one UNIQUE column the comparison may be left out after the first value if and only if
    not two rows with NULL come after a row with a value: always in an ascending index, where NULL comes
    first, but not in a descending one.
   */
  lemma UniqueTellsApart(rows: seq<Row>, nullKey: int)
    requires SortedIndex(rows, 2)
    requires forall s, t :: 0 <= s < t < |rows| && rows[s][0] == rows[t][0] ==> rows[t][0] == nullKey
    ensures AllToldApart(rows, 2, Test(1, true, nullKey)) <==>
      forall t: nat :: 0 < t < |rows| && ValueBefore(rows, nullKey, t) ==>
        HasValue(rows[t - 1], nullKey) || HasValue(rows[t], nullKey)
    ensures (forall r :: r in rows ==> nullKey <= r[0]) ==> AllToldApart(rows, 2, Test(1, true, nullKey))
  {
    var test := Test(1, true, nullKey);
    AllColumnsTellApart(rows, 2, nullKey);
    forall t: nat | 0 < t < |rows|
      ensures ToldApart(rows, 2, test, t) <==>
        (ValueBefore(rows, nullKey, t) ==> HasValue(rows[t - 1], nullKey) || HasValue(rows[t], nullKey))
    {
      assert ToldApart(rows, 2, Test(1, false, nullKey), t);
    }
    if forall r :: r in rows ==> nullKey <= r[0] {
      forall t: nat | 0 < t < |rows| && ValueBefore(rows, nullKey, t)
        ensures HasValue(rows[t - 1], nullKey) || HasValue(rows[t], nullKey)
      {
        NullsFirst(rows, nullKey, t);
      }
    }
  }

  lemma {:induction false} NullsFirst(rows: seq<Row>, nullKey: int, t: nat)
    requires SortedIndex(rows, 2) && t <= |rows| && ValueBefore(rows, nullKey, t)
    requires forall r :: r in rows ==> nullKey <= r[0]
    ensures t > 0 && HasValue(rows[t - 1], nullKey)
  {
    var s :| 0 <= s < t && s < |rows| && HasValue(rows[s], nullKey);
    if s < t - 1 {
      NullsFirst(rows, nullKey, t - 1);
      FirstRises(rows, t - 1);
    }
  }

  lemma FirstRises(rows: seq<Row>, t: nat)
    requires SortedIndex(rows, 2) && 0 < t < |rows|
    ensures rows[t - 1][0] <= rows[t][0]
  {
    assert Ascends(rows, 2, t);
    var d :| 0 <= d < 2 && DiffersAt(rows[t - 1], rows[t], d);
    if d == 1 { assert rows[t - 1][..1][0] == rows[t][..1][0]; }
  }

  /**
    A descending UNIQUE index with a value and then two NULLs (9 here): all rows are reported as changed
    in the first column, which makes three distinct values of two.
   */
  lemma DescendingNulls(c: seq<nat>)
    requires Reported([[5, 0], [9, 1], [9, 2]], 2, Test(1, true, 9), c) && |c| == 3
    ensures c == [0, 0, 0] && Groups(c, 0, 2) + 1 == 3
    ensures |Prefixes([[5, 0], [9, 1], [9, 2]], 2, 0)| == 2
  {
    var rows, test := [[5, 0], [9, 1], [9, 2]], Test(1, true, 9);
    assert HasValue(rows[0], 9) && SkippedAt(rows, test, 1) && SkippedAt(rows, test, 2);
    assert ReportedAt(rows, 2, test, 0, c[0]) && ReportedAt(rows, 2, test, 1, c[1]);
    assert ReportedAt(rows, 2, test, 2, c[2]);
    assert rows[0][..1] == [5] && rows[1][..1] == [9] && rows[2][..1] == [9];
    assert Prefixes(rows, 2, 0) == {[5], [9]};
  }
}
