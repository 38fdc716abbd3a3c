/**
  The groups that sqlcipher/src/analyze.c counts.  The rows of an index are scanned in sorted order, and
  for each row the scan knows only the leftmost column in which it differs from the row before.  The
  j-group of a row is the run of rows that agree with it in columns 0..j.
 */
module PrefixGroups {

  type Row = seq<int>

  // ---------------------------------------------------------------------------------------------
  // Groups in terms of the leftmost changed columns: c[t] is the one of row t, and c[0] is not used

  /** The first row of the j-group of row t. */
  function First(c: seq<nat>, j: nat, t: nat): (f: nat)
    requires t < |c|
    ensures f <= t
    decreases t
  {
    if t == 0 || c[t] <= j then t else First(c, j, t - 1)
  }

  /** The row after the last one of the j-group of row t. */
  function End(c: seq<nat>, j: nat, t: nat): (e: nat)
    requires t < |c|
    ensures t < e <= |c|
    decreases |c| - t
  {
    if t + 1 == |c| || c[t + 1] <= j then t + 1 else End(c, j, t + 1)
  }

  function Size(c: seq<nat>, j: nat, t: nat): (k: nat)
    requires t < |c|
    ensures k > 0
  {
    End(c, j, t) - First(c, j, t)
  }

  /** How many j-groups come before the one of row t. */
  function Groups(c: seq<nat>, j: nat, t: nat): (k: nat)
    requires t < |c|
    ensures k <= t
    decreases t
  {
    if t == 0 then 0 else Groups(c, j, t - 1) + (if c[t] <= j then 1 else 0)
  }

  /** Rows s <= t are in one j-group exactly if s does not come before the first row of t's group. */
  lemma {:induction false} OneGroup(c: seq<nat>, j: nat, s: nat, t: nat)
    requires s <= t < |c|
    ensures First(c, j, s) <= First(c, j, t)
    ensures First(c, j, s) == First(c, j, t) <==> First(c, j, t) <= s
    ensures First(c, j, s) == First(c, j, t) ==> End(c, j, s) == End(c, j, t) && Groups(c, j, s) == Groups(c, j, t)
    ensures First(c, j, s) < First(c, j, t) ==> End(c, j, s) <= First(c, j, t)
    decreases t - s
  {
    if s < t { OneGroup(c, j, s, t - 1); }
  }

  /** A group is the last one exactly if it contains the last row. */
  lemma LastGroup(c: seq<nat>, j: nat, t: nat)
    requires t < |c|
    ensures End(c, j, t) == |c| <==> First(c, j, t) == First(c, j, |c| - 1)
    ensures End(c, j, t) == |c| <==> First(c, j, |c| - 1) <= t
  {
    OneGroup(c, j, t, |c| - 1);
  }

  /** A longer prefix makes smaller groups. */
  lemma {:induction false} FirstNested(c: seq<nat>, j: nat, k: nat, t: nat)
    requires j <= k && t < |c|
    ensures First(c, j, t) <= First(c, k, t)
    decreases t
  {
    if t > 0 { FirstNested(c, j, k, t - 1); }
  }

  lemma {:induction false} EndNested(c: seq<nat>, j: nat, k: nat, t: nat)
    requires j <= k && t < |c|
    ensures End(c, k, t) <= End(c, j, t)
    decreases |c| - t
  {
    if t + 1 < |c| { EndNested(c, j, k, t + 1); }
  }

  lemma {:induction false} GroupsNested(c: seq<nat>, j: nat, k: nat, t: nat)
    requires j <= k && t < |c|
    ensures Groups(c, j, t) <= Groups(c, k, t)
    decreases t
  {
    if t > 0 { GroupsNested(c, j, k, t - 1); }
  }

  /** One more row keeps the groups that had ended, and ends or extends the last one. */
  lemma {:induction false} AppendRow(c: seq<nat>, x: nat, j: nat, t: nat)
    requires t < |c|
    ensures First(c + [x], j, t) == First(c, j, t) && Groups(c + [x], j, t) == Groups(c, j, t)
    ensures End(c + [x], j, t) == if End(c, j, t) == |c| && x > j then |c| + 1 else End(c, j, t)
  {
    AppendKeepsFirst(c, x, j, t);
    AppendMovesEnd(c, x, j, t);
  }

  lemma {:induction false} AppendKeepsFirst(c: seq<nat>, x: nat, j: nat, t: nat)
    requires t < |c|
    ensures First(c + [x], j, t) == First(c, j, t) && Groups(c + [x], j, t) == Groups(c, j, t)
    decreases t
  {
    if t > 0 { AppendKeepsFirst(c, x, j, t - 1); }
  }

  lemma {:induction false} AppendMovesEnd(c: seq<nat>, x: nat, j: nat, t: nat)
    requires t < |c|
    ensures End(c + [x], j, t) == if End(c, j, t) == |c| && x > j then |c| + 1 else End(c, j, t)
    decreases |c| - t
  {
    if t + 1 < |c| { AppendMovesEnd(c, x, j, t + 1); }
  }

  // ---------------------------------------------------------------------------------------------
  // Groups in terms of the rows

  /** a comes before b in the order of their first w columns. */
  ghost predicate Before(a: Row, b: Row, w: nat)
    requires w <= |a| && w <= |b|
  {
    exists d :: 0 <= d < w && DiffersAt(a, b, d)
  }

  ghost predicate DiffersAt(a: Row, b: Row, d: nat)
    requires d < |a| && d < |b|
  {
    a[..d] == b[..d] && a[d] < b[d]
  }

  /** A sorted run of rows of n columns, each of which first differs from the one before in column c[t]. */
  ghost predicate SortedRun(rows: seq<Row>, c: seq<nat>, n: nat) {
    && |c| == |rows|
    && (forall t :: 0 <= t < |rows| ==> |rows[t]| == n && c[t] < n)
    && (forall t :: 0 < t < |rows| ==> RisesAt(rows, c, t))
  }

  ghost predicate RisesAt(rows: seq<Row>, c: seq<nat>, t: nat)
    requires 0 < t < |rows| == |c|
  {
    c[t] < |rows[t - 1]| && c[t] < |rows[t]| && DiffersAt(rows[t - 1], rows[t], c[t])
  }

  ghost function EqualRows(rows: seq<Row>, n: nat, j: nat, t: nat): set<nat>
    requires j < n && t < |rows| && forall r :: r in rows ==> |r| == n
  {
    set k: nat | k < |rows| && rows[k][..j + 1] == rows[t][..j + 1]
  }

  ghost function SmallerRows(rows: seq<Row>, n: nat, j: nat, t: nat): set<nat>
    requires j < n && t < |rows| && forall r :: r in rows ==> |r| == n
  {
    set k: nat | k < |rows| && Before(rows[k], rows[t], j + 1)
  }

  ghost function SmallerPrefixes(rows: seq<Row>, n: nat, j: nat, t: nat): set<Row>
    requires j < n && t < |rows| && forall r :: r in rows ==> |r| == n
  {
    set k: nat | k < |rows| && Before(rows[k], rows[t], j + 1) :: rows[k][..j + 1]
  }

  /** Where two rows of a sorted run first differ. */
  lemma {:induction false} FirstDifference(rows: seq<Row>, c: seq<nat>, n: nat, s: nat, t: nat) returns (d: nat)
    requires SortedRun(rows, c, n) && s < t < |rows|
    ensures d < n && DiffersAt(rows[s], rows[t], d)
    ensures forall j: nat :: d <= j <==> First(c, j, s) < First(c, j, t)
    decreases t - s
  {
    assert RisesAt(rows, c, t);
    if s + 1 == t {
      d := c[t];
      forall j: nat ensures d <= j <==> First(c, j, s) < First(c, j, t) { OneGroup(c, j, s, t); }
    } else {
      var e := FirstDifference(rows, c, n, s, t - 1);
      d := if e < c[t] then e else c[t];
      assert rows[s][..d] == rows[t - 1][..d] == rows[t][..d] by {
        assert rows[s][..e][..d] == rows[t - 1][..e][..d];
        assert rows[t - 1][..c[t]][..d] == rows[t][..c[t]][..d];
      }
      if d < e { assert rows[s][..e][d] == rows[t - 1][..e][d]; }
      if d < c[t] { assert rows[t - 1][..c[t]][d] == rows[t][..c[t]][d]; }
      forall j: nat ensures d <= j <==> First(c, j, s) < First(c, j, t) {
        assert e <= j <==> First(c, j, s) < First(c, j, t - 1);
        OneGroup(c, j, s, t - 1);
      }
    }
  }

  /** Two rows share their first j + 1 columns exactly if they are in one j-group; otherwise the earlier is smaller. */
  lemma CompareRows(rows: seq<Row>, c: seq<nat>, n: nat, j: nat, s: nat, t: nat)
    requires SortedRun(rows, c, n) && j < n && s < |rows| && t < |rows|
    ensures rows[s][..j + 1] == rows[t][..j + 1] <==> First(c, j, s) == First(c, j, t)
    ensures Before(rows[s], rows[t], j + 1) <==> First(c, j, s) < First(c, j, t)
  {
    if s < t {
      var d := FirstDifference(rows, c, n, s, t);
      OneGroup(c, j, s, t);
      OneDifference(rows[s], rows[t], d, j + 1);
    } else if t < s {
      var d := FirstDifference(rows, c, n, t, s);
      OneGroup(c, j, t, s);
      OneDifference(rows[t], rows[s], d, j + 1);
    }
  }

  lemma OneDifference(a: Row, b: Row, d: nat, w: nat)
    requires d < |a| == |b| && w <= |a| && DiffersAt(a, b, d)
    ensures a[..w] == b[..w] <==> w <= d
    ensures Before(a, b, w) <==> d < w
    ensures !Before(b, a, w)
  {
    if w <= d {
      assert a[..d][..w] == a[..w] && b[..d][..w] == b[..w];
    } else {
      assert a[..w][d] != b[..w][d];
    }
    forall e | 0 <= e < w && e != d ensures !DiffersAt(a, b, e) && !DiffersAt(b, a, e) {
      if e < d { assert a[..d][e] == b[..d][e]; } else { assert a[..e][d] != b[..e][d]; }
    }
  }

  lemma {:induction false} SizeOfInterval(lo: nat, hi: nat, s: set<nat>)
    requires lo <= hi && forall k: nat :: k in s <==> lo <= k < hi
    ensures |s| == hi - lo
    decreases hi
  {
    if lo == hi {
      assert s == {};
    } else {
      SizeOfInterval(lo, hi - 1, s - {hi - 1});
    }
  }

  /**
    In a sorted run, the bounds of a row's group give the number of rows with the same prefix, the number
    of rows with a smaller one, and the number of distinct smaller ones.
   */
  lemma GroupCounts(rows: seq<Row>, c: seq<nat>, n: nat, j: nat, t: nat)
    requires SortedRun(rows, c, n) && j < n && t < |rows|
    ensures Size(c, j, t) == |EqualRows(rows, n, j, t)|
    ensures First(c, j, t) == |SmallerRows(rows, n, j, t)|
    ensures Groups(c, j, t) == |SmallerPrefixes(rows, n, j, t)|
  {
    forall k: nat | k < |rows|
      ensures rows[k][..j + 1] == rows[t][..j + 1] <==> First(c, j, t) <= k < End(c, j, t)
      ensures Before(rows[k], rows[t], j + 1) <==> k < First(c, j, t)
    {
      CompareRows(rows, c, n, j, k, t);
      if k <= t { OneGroup(c, j, k, t); } else { OneGroup(c, j, t, k); }
    }
    SizeOfInterval(First(c, j, t), End(c, j, t), EqualRows(rows, n, j, t));
    SizeOfInterval(0, First(c, j, t), SmallerRows(rows, n, j, t));
    CountPrefixes(rows, c, n, j, t);
  }

  /** The rows smaller than row t are those smaller than row t - 1 and, if the group changes, the rows equal to that. */
  lemma SmallerStep(rows: seq<Row>, c: seq<nat>, n: nat, j: nat, t: nat, k: nat)
    requires SortedRun(rows, c, n) && j < n && 0 < t < |rows| && k < |rows|
    ensures Before(rows[k], rows[t], j + 1)
       <==> Before(rows[k], rows[t - 1], j + 1) || (c[t] <= j && rows[k][..j + 1] == rows[t - 1][..j + 1])
    ensures Before(rows[k], rows[t - 1], j + 1) ==> rows[k][..j + 1] != rows[t - 1][..j + 1]
  {
    CompareRows(rows, c, n, j, k, t);
    CompareRows(rows, c, n, j, k, t - 1);
    if k >= t { OneGroup(c, j, t, k); } else { OneGroup(c, j, k, t - 1); }
  }

  /** w is the prefix of a row that is smaller than row t. */
  ghost predicate SmallerPrefix(rows: seq<Row>, n: nat, j: nat, t: nat, w: Row)
    requires j < n && t < |rows| && forall r :: r in rows ==> |r| == n
  {
    exists k: nat :: k < |rows| && Before(rows[k], rows[t], j + 1) && rows[k][..j + 1] == w
  }

  lemma PrefixStep(rows: seq<Row>, c: seq<nat>, n: nat, j: nat, t: nat, w: Row)
    requires SortedRun(rows, c, n) && j < n && 0 < t < |rows|
    ensures var last := rows[t - 1][..j + 1];
            && !SmallerPrefix(rows, n, j, t - 1, last)
            && (SmallerPrefix(rows, n, j, t, w) <==> SmallerPrefix(rows, n, j, t - 1, w) || (c[t] <= j && w == last))
  {
    forall k: nat | k < |rows|
      ensures Before(rows[k], rows[t], j + 1)
         <==> Before(rows[k], rows[t - 1], j + 1) || (c[t] <= j && rows[k][..j + 1] == rows[t - 1][..j + 1])
      ensures Before(rows[k], rows[t - 1], j + 1) ==> rows[k][..j + 1] != rows[t - 1][..j + 1]
    {
      SmallerStep(rows, c, n, j, t, k);
    }
  }

  lemma {:induction false} CountPrefixes(rows: seq<Row>, c: seq<nat>, n: nat, j: nat, t: nat)
    requires SortedRun(rows, c, n) && j < n && t < |rows|
    ensures Groups(c, j, t) == |SmallerPrefixes(rows, n, j, t)|
    decreases t
  {
    if t == 0 {
      forall k: nat | k < |rows| ensures !Before(rows[k], rows[0], j + 1) { CompareRows(rows, c, n, j, k, 0); }
      assert SmallerPrefixes(rows, n, j, 0) == {};
    } else {
      CountPrefixes(rows, c, n, j, t - 1);
      PrefixesStep(rows, c, n, j, t);
    }
  }

  /** Where the group changes, one more prefix is smaller. */
  lemma PrefixesStep(rows: seq<Row>, c: seq<nat>, n: nat, j: nat, t: nat)
    requires SortedRun(rows, c, n) && j < n && 0 < t < |rows|
    ensures |SmallerPrefixes(rows, n, j, t)| == |SmallerPrefixes(rows, n, j, t - 1)| + (if c[t] <= j then 1 else 0)
  {
    hide SmallerPrefix, Before;
    var p, q := SmallerPrefixes(rows, n, j, t), SmallerPrefixes(rows, n, j, t - 1);
    var last, grows := rows[t - 1][..j + 1], c[t] <= j;
    forall w ensures last !in q && (w in p <==> w in q || (grows && w == last)) {
      PrefixStep(rows, c, n, j, t, w);
      SmallerMembers(rows, n, j, t, w);
      SmallerMembers(rows, n, j, t - 1, w);
      SmallerMembers(rows, n, j, t - 1, last);
    }
    assert p == if grows then q + {last} else q;
  }

  lemma SmallerMembers(rows: seq<Row>, n: nat, j: nat, t: nat, w: Row)
    requires j < n && t < |rows| && forall r :: r in rows ==> |r| == n
    ensures w in SmallerPrefixes(rows, n, j, t) <==> SmallerPrefix(rows, n, j, t, w)
  {
  }

  ghost function Prefixes(rows: seq<Row>, n: nat, j: nat): set<Row>
    requires j < n && forall r :: r in rows ==> |r| == n
  {
    set k: nat | k < |rows| :: rows[k][..j + 1]
  }

  /** The number of distinct prefixes of a whole run. */
  lemma PrefixCount(rows: seq<Row>, c: seq<nat>, n: nat, j: nat)
    requires SortedRun(rows, c, n) && j < n && |rows| > 0
    ensures Groups(c, j, |rows| - 1) + 1 == |Prefixes(rows, n, j)|
  {
    var t := |rows| - 1;
    var p, last := SmallerPrefixes(rows, n, j, t), rows[t][..j + 1];
    CountPrefixes(rows, c, n, j, t);
    forall k: nat | k < |rows|
      ensures Before(rows[k], rows[t], j + 1) || rows[k][..j + 1] == last
      ensures Before(rows[k], rows[t], j + 1) ==> rows[k][..j + 1] != last
    {
      CompareRows(rows, c, n, j, k, t);
      OneGroup(c, j, k, t);
    }
    assert last !in p;
    assert Prefixes(rows, n, j) == p + {last};
  }
}
