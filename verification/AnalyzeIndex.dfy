/**
  The analysis of one index: what the statements generated by analyzeOneTable of sqlcipher/src/analyze.c
  do with the rows of a sorted index, and what the sqlite_stat1 and sqlite_stat4 entries say about them.
 */
module AnalyzeIndex {
  import opened Arith
  import opened Common
  import opened PrefixGroups
  import opened ChangeColumns
  import opened Stat4Samples
  import opened Stat4Counts
  import opened Stat4Choice
  import opened Stat4Picks
  import opened Stat4Accum
  import opened StatText

  // ---------------------------------------------------------------------------------------------
  // What the counts are to be

  /** The numbers of rows that share the first 1, 2, ..., n columns with row t. */
  ghost function EqualCounts(rows: seq<Row>, n: nat, t: nat): (s: seq<nat>)
    requires t < |rows| && forall r :: r in rows ==> |r| == n
    ensures |s| == n && forall j :: 0 <= j < n ==> s[j] == |EqualRows(rows, n, j, t)|
  {
    seq(n, j requires 0 <= j < n => |EqualRows(rows, n, j, t)|)
  }

  /** The numbers of rows that are smaller in these columns. */
  ghost function SmallerCounts(rows: seq<Row>, n: nat, t: nat): (s: seq<nat>)
    requires t < |rows| && forall r :: r in rows ==> |r| == n
    ensures |s| == n && forall j :: 0 <= j < n ==> s[j] == |SmallerRows(rows, n, j, t)|
  {
    seq(n, j requires 0 <= j < n => |SmallerRows(rows, n, j, t)|)
  }

  /** The numbers of distinct smaller values in these columns. */
  ghost function DistinctCounts(rows: seq<Row>, n: nat, t: nat): (s: seq<nat>)
    requires t < |rows| && forall r :: r in rows ==> |r| == n
    ensures |s| == n && forall j :: 0 <= j < n ==> s[j] == |SmallerPrefixes(rows, n, j, t)|
  {
    seq(n, j requires 0 <= j < n => |SmallerPrefixes(rows, n, j, t)|)
  }

  /** The numbers of distinct values in the first 1, 2, ..., k columns, less one. */
  ghost function PrefixCounts(rows: seq<Row>, n: nat, k: nat): (s: seq<nat>)
    requires k <= n && forall r :: r in rows ==> |r| == n
    ensures |s| == k && forall j :: 0 <= j < k ==> s[j] == if rows == [] then 0 else |Prefixes(rows, n, j)| - 1
  {
    if rows != [] then
      assert forall j :: 0 <= j < k ==> rows[0][..j + 1] in Prefixes(rows, n, j);
      seq(k, j requires 0 <= j < k => |Prefixes(rows, n, j)| - 1)
    else seq(k, _ => 0)
  }

  // ---------------------------------------------------------------------------------------------
  // What the samples say

  /** Every sample that is kept to the end has the exact counts of its row in the whole index. */
  lemma SamplesAreExact(rows: seq<Row>, c: seq<nat>, ids: seq<Id>, n: nat, mx: nat, a: seq<Sample>, iMin: nat, m: nat)
    requires SortedRun(rows, c, n) && Sampled(c, ids, n, mx, a, iMin, 0) && m < |a|
    ensures |a[m].anLt| == n > 0 && RowOf(a[m]) < |rows| == |ids| && a[m].rowid == ids[RowOf(a[m])].rowid
    ensures a[m].anEq == EqualCounts(rows, n, RowOf(a[m]))
    ensures a[m].anLt == SmallerCounts(rows, n, RowOf(a[m]))
    ensures a[m].anDLt == DistinctCounts(rows, n, RowOf(a[m]))
  {
    var s := a[m];
    assert Settled(c, ids, n, s, 0);
    var t := RowOf(s);
    forall j | 0 <= j < n
      ensures s.anEq[j] == |EqualRows(rows, n, j, t)| && s.anLt[j] == |SmallerRows(rows, n, j, t)|
      ensures s.anDLt[j] == |SmallerPrefixes(rows, n, j, t)|
    {
      assert LessOk(c, s, j) && SettledAt(c, s, j, 0);
      GroupCounts(rows, c, n, j, t);
    }
  }

  /**
    After any sorted run of rows has been pushed, the counts of the current row are exact for every column:
    rows with its prefix, rows with a smaller prefix, and distinct smaller prefixes; the first two make up
    all the rows.
   */
  lemma CurrentIsExact(rows: seq<Row>, c: seq<nat>, ids: seq<Id>, n: nat, cur: Sample, j: nat)
    requires SortedRun(rows, c, n) && Current(c, ids, n, cur) && j < n
    ensures cur.anEq[j] == |EqualRows(rows, n, j, |rows| - 1)|
    ensures cur.anLt[j] == |SmallerRows(rows, n, j, |rows| - 1)|
    ensures cur.anDLt[j] == |SmallerPrefixes(rows, n, j, |rows| - 1)|
    ensures cur.anLt[j] + cur.anEq[j] == |rows|
  {
    assert LessOk(c, cur, j);
    GroupCounts(rows, c, n, j, |rows| - 1);
  }

  /** Sample s shares the first j + 1 columns with row t. */
  ghost predicate SharesPrefix(rows: seq<Row>, n: nat, s: nat, t: nat, j: nat)
    requires j < n && s < |rows| && t < |rows| && forall r :: r in rows ==> |r| == n
  {
    rows[s][..j + 1] == rows[t][..j + 1]
  }

  /** Row s shares some prefix, shorter than the whole row, with at least `size` rows. */
  ghost predicate IsFrequent(rows: seq<Row>, n: nat, s: nat, size: nat)
    requires s < |rows| && forall r :: r in rows ==> |r| == n
  {
    exists i: nat :: i < n - 1 && |EqualRows(rows, n, i, s)| >= size
  }

  /**
    A prefix that occurs in the index is kept in the samples, unless all mx samples are taken, and every one
    of them that is not a periodic sample stands for a prefix that occurs at least as often.
   */
  lemma FrequentPrefixesAreKept(rows: seq<Row>, c: seq<nat>, ids: seq<Id>, n: nat, mx: nat, a: seq<Sample>, iMin: nat,
                                j: nat, t: nat)
    requires SortedRun(rows, c, n) && Sampled(c, ids, n, mx, a, iMin, 0) && j < n - 1 && t < |rows|
    requires forall m :: 0 <= m < |a| ==> |a[m].anLt| > 0 && RowOf(a[m]) < |rows|
    ensures || (exists m :: 0 <= m < |a| && SharesPrefix(rows, n, RowOf(a[m]), t, j))
            || (|a| == mx && forall m :: 0 <= m < |a| && !a[m].isPSample ==>
                 IsFrequent(rows, n, RowOf(a[m]), |EqualRows(rows, n, j, t)|))
  {
    assert CoveredAt(c, mx, a, iMin, j, t);
    GroupCounts(rows, c, n, j, t);
    var size := Size(c, j, t);
    if Represented(a, First(c, j, t), size, j) {
      var m :| 0 <= m < |a| && Stands(a[m], First(c, j, t), size, j);
      assert Settled(c, ids, n, a[m], 0) && LessOk(c, a[m], j);
      CompareRows(rows, c, n, j, RowOf(a[m]), t);
      assert SharesPrefix(rows, n, RowOf(a[m]), t, j);
    } else {
      forall m | 0 <= m < |a| && !a[m].isPSample ensures IsFrequent(rows, n, RowOf(a[m]), size) {
        MinDecides(mx, a, iMin, size, j, m);
        assert Settled(c, ids, n, a[m], 0) && SettledAt(c, a[m], a[m].iCol, 0);
        GroupCounts(rows, c, n, a[m].iCol, RowOf(a[m]));
        assert |EqualRows(rows, n, a[m].iCol, RowOf(a[m]))| >= size;
      }
    }
  }

  /** The value of iPrn after t rows. */
  function Prn(seed: nat, t: nat): nat {
    if t == 0 then seed else (Prn(seed, t - 1) * 1103515245 + 12345) % 0x1_0000_0000
  }

  function IdsOf(rowids: seq<int>, seed: nat): (ids: seq<Id>)
    ensures |ids| == |rowids| && forall t :: 0 <= t < |ids| ==> ids[t] == Id(rowids[t], Prn(seed, t + 1))
  {
    seq(|rowids|, t requires 0 <= t < |rowids| => Id(rowids[t], Prn(seed, t + 1)))
  }

  lemma FirstPrn(seed: nat)
    ensures Prn(seed, 0) == seed
  {
  }

  lemma NextId(rowids: seq<int>, seed: nat, t: nat)
    requires t < |rowids|
    ensures (Prn(seed, t) * 1103515245 + 12345) % 0x1_0000_0000 == Prn(seed, t + 1)
    ensures IdsOf(rowids, seed)[..t + 1] == IdsOf(rowids, seed)[..t] + [Id(rowids[t], Prn(seed, t + 1))]
  {
  }

  /** For each column j how many rows up to row t share its first j + 1 columns, and then its pseudo-random number. */
  ghost function Ranks(rows: seq<Row>, n: nat, seed: nat, t: nat): (k: seq<nat>)
    requires t < |rows| && forall r :: r in rows ==> |r| == n
    ensures |k| == n + 1 && k[n] == Prn(seed, t + 1)
    ensures forall j :: 0 <= j < n ==> k[j] == |EqualRows(rows[..t + 1], n, j, t)|
  {
    seq(n, j requires 0 <= j < n => |EqualRows(rows[..t + 1], n, j, t)|) + [Prn(seed, t + 1)]
  }

  /** Of two rows, t has the greater number for the first column after i for which they differ. */
  ghost predicate Outranks(rows: seq<Row>, n: nat, seed: nat, i: nat, t: nat, u: nat)
    requires t < |rows| && u < |rows| && forall r :: r in rows ==> |r| == n
  {
    Greater(Ranks(rows, n, seed, t), Ranks(rows, n, seed, u), i)
  }

  /** Of the rows with its first i + 1 columns, t outranks those before it, and none after it outranks t. */
  ghost predicate IsBestRow(rows: seq<Row>, n: nat, seed: nat, i: nat, t: nat)
    requires i < n && t < |rows| && forall r :: r in rows ==> |r| == n
  {
    forall u: nat :: u in EqualRows(rows, n, i, t) ==>
      if u < t then Outranks(rows, n, seed, i, t, u) else !Outranks(rows, n, seed, i, u, t)
  }

  lemma RanksAreKeys(rows: seq<Row>, c: seq<nat>, rowids: seq<int>, seed: nat, n: nat, t: nat)
    requires SortedRun(rows, c, n) && t < |rows| == |rowids|
    ensures Ranks(rows, n, seed, t) == Keys(c, IdsOf(rowids, seed), n, t)
  {
    forall j: nat | j < n ensures |EqualRows(rows[..t + 1], n, j, t)| == t + 1 - First(c, j, t) {
      var seen := EqualRows(rows[..t + 1], n, j, t);
      forall k: nat ensures k in seen <==> First(c, j, t) <= k < t + 1 {
        if k <= t {
          CompareRows(rows, c, n, j, k, t);
          OneGroup(c, j, k, t);
        }
      }
      SizeOfInterval(First(c, j, t), t + 1, seen);
    }
  }

  /** The best row of a whole group, in terms of the rows. */
  lemma TopIsBestRow(rows: seq<Row>, c: seq<nat>, rowids: seq<int>, seed: nat, n: nat, i: nat, t: nat)
    requires SortedRun(rows, c, n) && t < |rows| == |rowids| && i < n
    ensures Top(c, IdsOf(rowids, seed), n, i, t) <==> IsBestRow(rows, n, seed, i, t)
  {
    assert |c| == |rows| && forall r :: r in rows ==> |r| == n;
    hide Greater, Keys, Ranks, SortedRun, RisesAt;
    RanksAreKeys(rows, c, rowids, seed, n, t);
    var ids := IdsOf(rowids, seed);
    forall u: nat | u < |rows|
      ensures u in EqualRows(rows, n, i, t) <==> First(c, i, t) <= u < End(c, i, t)
      ensures Ranks(rows, n, seed, u) == Keys(c, ids, n, u)
    {
      CompareRows(rows, c, n, i, u, t);
      if u <= t { OneGroup(c, i, u, t); } else { OneGroup(c, i, t, u); }
      RanksAreKeys(rows, c, rowids, seed, n, u);
    }
    forall u: nat | u < |rows| ensures Prefers(c, ids, n, i, t, u) <==>
        if u < t then Outranks(rows, n, seed, i, t, u) else !Outranks(rows, n, seed, i, u, t) {}
  }

  // ---------------------------------------------------------------------------------------------
  // The scan

  /** nPSample: how often a periodic sample is taken. */
  function Period(mx: nat, nRow: nat): (p: nat)
    ensures p > 0
  {
    Quot(mx / 3 + 1, nRow) + 1
  }

  /** Every p-th row is a periodic sample, where p is one more than the number of rows over mx / 3 + 1. */
  function PeriodicRows(mx: nat, nRow: nat): nat {
    nRow / (nRow / (mx / 3 + 1) + 1)
  }

  lemma PeriodicRowsCounted(mx: nat, nRow: nat)
    ensures Quot(Period(mx, nRow), nRow) == PeriodicRows(mx, nRow)
  {
    QuotientRemainder(mx / 3 + 1, nRow);
    QuotientRemainder(Period(mx, nRow), nRow);
  }

  /** The loop over the rows of the index. */
  method Scan(rows: seq<Row>, ids: seq<int>, n: nat, nKeyCol: nat, test: Test, mx: nat, seed: nat) returns (p: Accum)
    requires SortedIndex(rows, n) && |ids| == |rows| < LIMIT && 0 < nKeyCol <= n && Fits(test, n) && mx > 0
    ensures fresh(p) && p.Scanning() && p.ids == IdsOf(ids, seed)
    ensures |p.chng| == p.nRow == |rows| && Reported(rows, n, test, p.chng)
    ensures p.nCol == n && p.nKeyCol == nKeyCol && p.mxSample == mx && p.nPSample == Period(mx, |rows|)
    ensures SortedRun(rows, p.chng, n) <==> AllToldApart(rows, n, test)
    ensures rows != [] && AllToldApart(rows, n, test) ==> CountsLast(rows, n, p.current)
  {
    hide Sampled, Current, BestRows, Reported, Registers, AllToldApart, SortedRun, IdsOf, Prn;
    hide Accum.Scanning, CountsLast;
    p := new Accum(n, nKeyCol, |rows|, mx, seed);
    FirstPrn(seed);
    var regPrev: Row, regChng := [], 0;
    ReportedStart(rows, n, test);
    for k := 0 to |rows|
      invariant fresh(p) && p.Scanning() && p.nCol == n && p.nKeyCol == nKeyCol && p.mxSample == mx && p.nEst == |rows|
      invariant p.nPSample == Period(mx, |rows|)
      invariant |p.chng| == p.nRow == k && Reported(rows, n, test, p.chng)
      invariant p.ids == IdsOf(ids, seed)[..k] && p.iPrn == Prn(seed, k)
      invariant k == 0 ==> regChng == 0
      invariant k > 0 ==> |regPrev| == test.nColTest && Registers(rows, n, test, k, regPrev, regChng)
    {
      if k == 0 {
        RegistersStart(rows, n, test);
        regPrev := rows[0][..test.nColTest];
      } else {
        ghost var regPrev0, regChng0 := regPrev, regChng;
        regPrev, regChng := NextChange(regPrev, regChng, rows[k], test);
        RegistersFollow(rows, n, test, k, regPrev0, regChng0, regPrev, regChng);
      }
      ReportedNext(rows, n, test, p.chng, regChng);
      NextId(ids, seed, k);
      p.StatPush(regChng, ids[k]);
    }
    assert IdsOf(ids, seed)[..|rows|] == IdsOf(ids, seed);
    ReportedExactly(rows, n, test, p.chng);
    if rows != [] && AllToldApart(rows, n, test) { LastIsExact(rows, n, p); }
  }

  /** The counts of the last row are exact. */
  ghost predicate CountsLast(rows: seq<Row>, n: nat, cur: Sample)
    requires rows != [] && forall r :: r in rows ==> |r| == n
  {
    && cur.anEq == EqualCounts(rows, n, |rows| - 1) && cur.anLt == SmallerCounts(rows, n, |rows| - 1)
    && cur.anDLt == DistinctCounts(rows, n, |rows| - 1)
  }

  lemma LastIsExact(rows: seq<Row>, n: nat, p: Accum)
    requires p.Scanning() && p.nCol == n && SortedRun(rows, p.chng, n) && rows != []
    ensures (forall r :: r in rows ==> |r| == n) && CountsLast(rows, n, p.current)
  {
    AllCurrentExact(rows, p.chng, p.ids, n, p.current);
  }

  lemma AllCurrentExact(rows: seq<Row>, c: seq<nat>, ids: seq<Id>, n: nat, cur: Sample)
    requires SortedRun(rows, c, n) && Current(c, ids, n, cur)
    ensures rows != [] && cur.anEq == EqualCounts(rows, n, |rows| - 1)
    ensures cur.anLt == SmallerCounts(rows, n, |rows| - 1) && cur.anDLt == DistinctCounts(rows, n, |rows| - 1)
  {
    forall j | 0 <= j < n
      ensures cur.anEq[j] == |EqualRows(rows, n, j, |rows| - 1)| && cur.anLt[j] == |SmallerRows(rows, n, j, |rows| - 1)|
           && cur.anDLt[j] == |SmallerPrefixes(rows, n, j, |rows| - 1)|
    {
      CurrentIsExact(rows, c, ids, n, cur, j);
    }
  }

  /** A row of sqlite_stat4, without the sampled key. */
  datatype Entry = Entry(rowid: int, nEq: string, nLt: string, nDLt: string)

  function EntryOf(s: Sample): Entry {
    Entry(s.rowid, Spaced(s.anEq), Spaced(s.anLt), Spaced(s.anDLt))
  }

  /** The loop over the samples. */
  method ReportSamples(p: Accum) returns (entries: seq<Entry>)
    requires p.Scanning() && p.nRow > 0
    modifies p
    ensures p.Reporting() && p.chng == old(p.chng) && p.ids == old(p.ids)
    ensures |entries| == |p.a| && forall m :: 0 <= m < |p.a| ==> entries[m] == EntryOf(p.a[m])
  {
    hide Sampled, Current, BestRows, Spaced, Rationed, Wide;
    entries := [];
    var rowid := p.StatGetRowid();
    while rowid.Some?
      invariant p.Reporting() && p.chng == old(p.chng) && p.ids == old(p.ids)
      invariant p.iGet == |entries| <= |p.a|
      invariant rowid == if p.iGet < |p.a| then Some(p.a[p.iGet].rowid) else None
      invariant forall m :: 0 <= m < |entries| ==> entries[m] == EntryOf(p.a[m])
      decreases |p.a| - |entries|
    {
      var nEq := p.StatGetNEq();
      var nLt := p.StatGetNLt();
      var nDLt := p.StatGetNDLt();
      entries := entries + [Entry(rowid.value, nEq, nLt, nDLt)];
      rowid := p.StatGetRowid();
    }
  }

  ghost predicate ExactEntry(rows: seq<Row>, ids: seq<int>, n: nat, t: nat, e: Entry)
    requires |ids| == |rows| && forall r :: r in rows ==> |r| == n
  {
    && t < |rows| && e.rowid == ids[t] && e.nEq == Spaced(EqualCounts(rows, n, t))
    && e.nLt == Spaced(SmallerCounts(rows, n, t)) && e.nDLt == Spaced(DistinctCounts(rows, n, t))
  }

  /** The prefix of j + 1 columns of row t has a sample, or all the samples were needed for others as frequent. */
  ghost predicate Kept(rows: seq<Row>, n: nat, mx: nat, list: seq<Pick>, j: nat, t: nat)
    requires j < n && t < |rows|
    requires (forall m :: 0 <= m < |list| ==> list[m].row < |rows|) && forall r :: r in rows ==> |r| == n
  {
    || (exists m :: 0 <= m < |list| && SharesPrefix(rows, n, list[m].row, t, j))
    || (|list| == mx && forall m :: 0 <= m < |list| && !list[m].periodic ==>
         IsFrequent(rows, n, list[m].row, |EqualRows(rows, n, j, t)|))
  }

  /** How many entries are periodic samples. */
  ghost function PeriodicPicks(list: seq<Pick>): nat {
    if list == [] then 0 else (if list[0].periodic then 1 else 0) + PeriodicPicks(list[1..])
  }

  lemma {:induction false} PeriodicPicksCounted(a: seq<Sample>)
    ensures PeriodicPicks(PicksOf(a)) == Periodics(a)
  {
    if a != [] {
      assert PicksOf(a)[1..] == PicksOf(a[1..]);
      PeriodicPicksCounted(a[1..]);
    }
  }

  /** What the samples kept to the end say about the rows. */
  lemma ReportMeaning(rows: seq<Row>, c: seq<nat>, ids: seq<int>, seed: nat, n: nat, mx: nat, a: seq<Sample>, iMin: nat)
    requires SortedRun(rows, c, n) && Sampled(c, IdsOf(ids, seed), n, mx, a, iMin, 0) && |ids| == |rows| && Shaped(n, a)
    ensures forall r :: r in rows ==> |r| == n
    ensures forall m :: 0 <= m < |a| ==> PicksOf(a)[m].row < |rows|
    ensures forall m :: 0 <= m < |a| ==> ExactEntry(rows, ids, n, PicksOf(a)[m].row, EntryOf(a[m]))
    ensures forall j: nat, t: nat :: j < n - 1 && t < |rows| ==> Kept(rows, n, mx, PicksOf(a), j, t)
    ensures forall m :: 0 <= m < |a| && !a[m].isPSample ==>
      BestForSome(rows, n, seed, PicksOf(a)[m].col, PicksOf(a)[m].row)
  {
    hide Sampled, Settled, IsFrequent, SharesPrefix, SortedRun, Spaced;
    var list := PicksOf(a);
    RowsInOrder(rows, c, IdsOf(ids, seed), n, mx, a, iMin);
    forall m | 0 <= m < |a| ensures ExactEntry(rows, ids, n, list[m].row, EntryOf(a[m])) {
      SamplesAreExact(rows, c, IdsOf(ids, seed), n, mx, a, iMin, m);
    }
    forall m | 0 <= m < |a| && !a[m].isPSample ensures BestForSome(rows, n, seed, list[m].col, list[m].row) {
      SampleIsBest(rows, c, ids, seed, n, mx, a, iMin, m);
    }
    forall j: nat, t: nat | j < n - 1 && t < |rows| ensures Kept(rows, n, mx, list, j, t) {
      FrequentPrefixesAreKept(rows, c, IdsOf(ids, seed), n, mx, a, iMin, j, t);
      if m :| 0 <= m < |a| && SharesPrefix(rows, n, RowOf(a[m]), t, j) {
        assert SharesPrefix(rows, n, list[m].row, t, j);
      }
    }
  }

  /** Row t is the best one for the prefix of col + 1 columns or for a longer one. */
  ghost predicate BestForSome(rows: seq<Row>, n: nat, seed: nat, col: nat, t: nat)
    requires t < |rows| && forall r :: r in rows ==> |r| == n
  {
    exists k: nat :: col <= k < n - 1 && IsBestRow(rows, n, seed, k, t)
  }

  lemma SampleIsBest(rows: seq<Row>, c: seq<nat>, ids: seq<int>, seed: nat, n: nat, mx: nat, a: seq<Sample>,
                     iMin: nat, m: nat)
    requires SortedRun(rows, c, n) && Sampled(c, IdsOf(ids, seed), n, mx, a, iMin, 0) && |ids| == |rows|
    requires m < |a| && !a[m].isPSample && |a[m].anLt| > 0 && RowOf(a[m]) < |rows|
    ensures BestForSome(rows, n, seed, a[m].iCol, RowOf(a[m]))
  {
    assert |c| == |rows| && forall r :: r in rows ==> |r| == n;
    hide Top, IsBestRow, SortedRun;
    assert Settled(c, IdsOf(ids, seed), n, a[m], 0);
    var t := RowOf(a[m]);
    var k: nat :| a[m].iCol <= k < n - 1 && Top(c, IdsOf(ids, seed), n, k, t);
    TopIsBestRow(rows, c, ids, seed, n, k, t);
  }

  lemma RowsInOrder(rows: seq<Row>, c: seq<nat>, ids: seq<Id>, n: nat, mx: nat, a: seq<Sample>, iMin: nat)
    requires SortedRun(rows, c, n) && Sampled(c, ids, n, mx, a, iMin, 0) && Shaped(n, a)
    ensures forall r :: r in rows ==> |r| == n
    ensures forall m :: 0 <= m < |a| ==> |a[m].anLt| > 0 && RowOf(a[m]) < |rows|
    ensures forall l, m {:trigger a[l], a[m]} :: 0 <= l < m < |a| ==> RowOf(a[l]) < RowOf(a[m])
  {
    forall m | 0 <= m < |a| ensures |a[m].anLt| > 0 && RowOf(a[m]) < |rows| {
      assert Settled(c, ids, n, a[m], 0);
    }
  }

  lemma Stat1Meaning(rows: seq<Row>, n: nat, k: nat, p: Accum)
    requires p.Scanning() && p.nRow > 0 && p.nCol == n && SortedRun(rows, p.chng, n) && k <= n
    ensures (forall r :: r in rows ==> |r| == n) && |p.current.anDLt| == n
    ensures p.current.anDLt[..k] == PrefixCounts(rows, n, k)
  {
    forall j | 0 <= j < k ensures p.current.anDLt[j] == |Prefixes(rows, n, j)| - 1 {
      assert LessOk(p.chng, p.current, j);
      PrefixCount(rows, p.chng, n, j);
    }
  }

  /** v is the number of rows divided by the number of distinct values in the first i columns, rounded up. */
  ghost predicate IsEstimate(rows: seq<Row>, n: nat, i: nat, v: nat)
    requires 1 <= i <= n && forall r :: r in rows ==> |r| == n
  {
    |Prefixes(rows, n, i - 1)| > 0 && v == Estimate(|rows|, |Prefixes(rows, n, i - 1)|) && v >= 1
  }

  /**
    The stat1 integers after the number of rows are quotients rounded up, at least 1, and never increase
    along the columns; their text fits the buffer that is allocated for it and is read back as the list.
   */
  lemma Stat1Shape(rows: seq<Row>, c: seq<nat>, n: nat, k: nat)
    requires SortedRun(rows, c, n) && 0 < |rows| < LIMIT && k <= n
    ensures var list := Estimates(|rows|, PrefixCounts(rows, n, k));
            && (forall i :: 1 <= i <= k ==> IsEstimate(rows, n, i, list[i]))
            && (forall i :: 1 <= i <= k ==> list[i] <= list[i - 1])
            && |Spaced(list)| + 1 <= (k + 1) * 25
            && Decoded(Spaced(list), 0, k + 1) == list
  {
    hide Estimate, Prefixes, Spaced, Decoded, Estimates, PrefixCounts, RisesAt;
    var list := Estimates(|rows|, PrefixCounts(rows, n, k));
    forall i | 1 <= i <= k
      ensures IsEstimate(rows, n, i, list[i]) && list[i] <= list[i - 1] && list[i] <= |rows|
    {
      EstimateAt(rows, c, n, i - 1);
      EstimatesAt(rows, n, k, i);
      if i > 1 {
        EstimateAt(rows, c, n, i - 2);
        EstimatesAt(rows, n, k, i - 1);
        EstimateNext(rows, c, n, i - 1);
      }
    }
    SpacedFits(list);
    DecodeSpaced("", list);
    assert "" + Spaced(list) == Spaced(list);
  }

  lemma EstimatesAt(rows: seq<Row>, n: nat, k: nat, i: nat)
    requires k <= n && rows != [] && (forall r :: r in rows ==> |r| == n)
    requires 1 <= i <= k && |Prefixes(rows, n, i - 1)| > 0
    ensures Estimates(|rows|, PrefixCounts(rows, n, k))[i] == Estimate(|rows|, |Prefixes(rows, n, i - 1)|)
  {
    hide Estimate, Prefixes;
    var counts := PrefixCounts(rows, n, k);
    assert counts[i - 1] == |Prefixes(rows, n, i - 1)| - 1;
  }

  lemma EstimateAt(rows: seq<Row>, c: seq<nat>, n: nat, i: nat)
    requires SortedRun(rows, c, n) && 0 < |rows| && i < n
    ensures |Prefixes(rows, n, i)| > 0 && 1 <= Estimate(|rows|, |Prefixes(rows, n, i)|) <= |rows|
  {
    hide Prefixes, Estimate;
    PrefixCount(rows, c, n, i);
    EstimateIsCeiling(|rows|, |Prefixes(rows, n, i)|);
    EstimateFalls(|rows|, 1, |Prefixes(rows, n, i)|);
    EstimateOfOne(|rows|);
  }

  lemma EstimateNext(rows: seq<Row>, c: seq<nat>, n: nat, i: nat)
    requires SortedRun(rows, c, n) && 0 < |rows| && 0 < i < n
    requires |Prefixes(rows, n, i - 1)| > 0 && |Prefixes(rows, n, i)| > 0
    ensures Estimate(|rows|, |Prefixes(rows, n, i)|) <= Estimate(|rows|, |Prefixes(rows, n, i - 1)|)
  {
    hide Prefixes, Estimate;
    PrefixCount(rows, c, n, i - 1);
    PrefixCount(rows, c, n, i);
    GroupsNested(c, i - 1, i, |rows| - 1);
    EstimateFalls(|rows|, |Prefixes(rows, n, i - 1)|, |Prefixes(rows, n, i)|);
  }

  lemma EstimateOfOne(nRow: nat)
    ensures Estimate(nRow, 1) == nRow
  {
    EstimateIsCeiling(nRow, 1);
  }

  /** The numbers of groups, less one, that the columns c make of the rows. */
  function GroupCountsOf(c: seq<nat>, k: nat): (s: seq<nat>)
    requires c != []
    ensures |s| == k && forall j :: 0 <= j < k ==> s[j] == Groups(c, j, |c| - 1)
  {
    seq(k, j requires 0 <= j < k => Groups(c, j, |c| - 1))
  }

  /**
    The analysis of one index that is not empty.  c are the columns that the comparisons report, and `list` tells of
    the sqlite_stat4 entries which rows they are about: it is the only list that the groups of c allow.  If the
    comparisons tell all rows apart, all the numbers are the right ones.
   */
  method AnalyzeOneIndex(rows: seq<Row>, ids: seq<int>, n: nat, nKeyCol: nat, test: Test, mx: nat, seed: nat)
    returns (stat1: string, stat4: seq<Entry>, ghost c: seq<nat>, ghost list: seq<Pick>)
    requires SortedIndex(rows, n) && 0 < |ids| == |rows| < LIMIT && 0 < nKeyCol <= n && mx > 0 && Fits(test, n)
    ensures |c| == |rows| && Reported(rows, n, test, c)
    ensures stat1 == Spaced(Estimates(|rows|, GroupCountsOf(c, nKeyCol)))
    ensures |stat4| == |list| <= mx && PeriodicPicks(list) == PeriodicRows(mx, |rows|) <= mx / 3
    ensures FinalList(c, IdsOf(ids, seed), n, mx, Period(mx, |rows|), list)
    ensures forall m :: 0 <= m < |list| ==> list[m].row < |rows| && stat4[m].rowid == ids[list[m].row]
    ensures forall l, m :: 0 <= l < m < |list| ==> list[l].row < list[m].row
    ensures AllToldApart(rows, n, test) ==> RightStats(rows, ids, seed, n, nKeyCol, mx, stat1, stat4, list)
  {
    hide Accum.Scanning, Accum.Reporting, SortedIndex, AllToldApart, Reported, SortedRun, PeriodicRows, Period;
    hide FinalList;
    hide RightStats, Sampled, PicksOf;
    var p := Scan(rows, ids, n, nKeyCol, test, mx, seed);
    c := p.chng;
    CurrentGroups(p, nKeyCol);
    stat1 := p.StatGetStat1();
    if SortedRun(rows, c, n) { Stat1Meaning(rows, n, nKeyCol, p); }
    stat4 := ReportSamples(p);
    list := PicksOf(p.a);
    ReportingHolds(p);
    ghost var a, iMin := p.a, p.iMin;
    Report(rows, c, ids, seed, n, mx, a, iMin);
    PeriodicRowsCounted(mx, |rows|);
    PeriodicPicksCounted(a);
    if SortedRun(rows, c, n) { ReportIsRight(rows, c, ids, seed, n, nKeyCol, mx, a, iMin, stat1, stat4); }
  }

  /** What the two tables are to say about an index. */
  ghost predicate RightStats(rows: seq<Row>, ids: seq<int>, seed: nat, n: nat, nKeyCol: nat, mx: nat, stat1: string,
                             stat4: seq<Entry>, list: seq<Pick>)
    requires |ids| == |rows| && nKeyCol <= n && |stat4| == |list| && forall r :: r in rows ==> |r| == n
    requires forall m :: 0 <= m < |list| ==> list[m].row < |rows|
  {
    && stat1 == Spaced(Estimates(|rows|, PrefixCounts(rows, n, nKeyCol)))
    && (forall m :: 0 <= m < |list| ==> ExactEntry(rows, ids, n, list[m].row, stat4[m]))
    && (forall j: nat, t: nat :: j < n - 1 && t < |rows| ==> Kept(rows, n, mx, list, j, t))
    && (forall m :: 0 <= m < |list| && !list[m].periodic ==> BestForSome(rows, n, seed, list[m].col, list[m].row))
  }

  lemma CurrentGroups(p: Accum, k: nat)
    requires p.Scanning() && p.nRow > 0 && k <= p.nCol
    ensures p.chng != [] && |p.current.anDLt| == p.nCol && p.current.anDLt[..k] == GroupCountsOf(p.chng, k)
  {
    forall j | 0 <= j < k ensures p.current.anDLt[j] == Groups(p.chng, j, |p.chng| - 1) {
      assert LessOk(p.chng, p.current, j);
    }
  }

  /** What the finished accumulator holds. */
  lemma ReportingHolds(p: Accum)
    requires p.Reporting()
    ensures Sampled(p.chng, p.ids, p.nCol, p.mxSample, p.a, p.iMin, 0) && Periodics(p.a) == Quot(p.nPSample, p.nRow)
    ensures FinalList(p.chng, p.ids, p.nCol, p.mxSample, p.nPSample, PicksOf(p.a)) && p.nRow == |p.chng|
    ensures Quot(p.nPSample, p.nRow) <= p.mxSample / 3
  {
  }

  lemma Report(rows: seq<Row>, c: seq<nat>, ids: seq<int>, seed: nat, n: nat, mx: nat, a: seq<Sample>, iMin: nat)
    requires Sampled(c, IdsOf(ids, seed), n, mx, a, iMin, 0) && |c| == |ids| == |rows|
    ensures |a| <= mx && forall m :: 0 <= m < |a| ==> PicksOf(a)[m].row < |rows| && a[m].rowid == ids[PicksOf(a)[m].row]
    ensures forall l, m :: 0 <= l < m < |a| ==> PicksOf(a)[l].row < PicksOf(a)[m].row
  {
    SampledIsShaped(c, IdsOf(ids, seed), n, mx, a, iMin, 0);
    forall m | 0 <= m < |a| ensures RowOf(a[m]) < |c| && a[m].rowid == ids[RowOf(a[m])] {
      assert Settled(c, IdsOf(ids, seed), n, a[m], 0);
    }
  }

  lemma ReportIsRight(rows: seq<Row>, c: seq<nat>, ids: seq<int>, seed: nat, n: nat, nKeyCol: nat, mx: nat,
                      a: seq<Sample>, iMin: nat, stat1: string, stat4: seq<Entry>)
    requires SortedRun(rows, c, n) && Sampled(c, IdsOf(ids, seed), n, mx, a, iMin, 0) && |ids| == |rows|
    requires nKeyCol <= n && |stat4| == |a| && forall m :: 0 <= m < |a| ==> stat4[m] == EntryOf(a[m])
    requires (forall r :: r in rows ==> |r| == n) && stat1 == Spaced(Estimates(|rows|, PrefixCounts(rows, n, nKeyCol)))
    ensures forall m :: 0 <= m < |a| ==> PicksOf(a)[m].row < |rows|
    ensures RightStats(rows, ids, seed, n, nKeyCol, mx, stat1, stat4, PicksOf(a))
  {
    hide ExactEntry, Kept, BestForSome, SortedRun, Sampled;
    SampledIsShaped(c, IdsOf(ids, seed), n, mx, a, iMin, 0);
    ReportMeaning(rows, c, ids, seed, n, mx, a, iMin);
  }
}
