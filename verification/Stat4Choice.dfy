/**
  Which samples the STAT4 accumulator of sqlcipher/src/analyze.c keeps, given by the groups of the index and
  without running counts: an entry of the list is a row, the column for which it was included, and whether it
  is a periodic sample.
 */
module Stat4Choice {
  import opened Arith
  import opened PrefixGroups
  import opened Stat4Samples
  import opened Stat4Counts

  datatype Pick = Pick(row: nat, col: nat, periodic: bool)

  ghost predicate RowsIn(c: seq<nat>, ids: seq<Id>, list: seq<Pick>) {
    |ids| == |c| && forall m :: 0 <= m < |list| ==> list[m].row < |c|
  }

  /** The sizes of the groups of a row for all the columns, and its hash. */
  ghost function Sizes(c: seq<nat>, ids: seq<Id>, n: nat, t: nat): (s: seq<nat>)
    requires t < |c| == |ids|
    ensures |s| == n + 1 && s[n] == ids[t].iHash && forall j :: 0 <= j < n ==> s[j] == Size(c, j, t)
  {
    seq(n, j requires 0 <= j < n => Size(c, j, t)) + [ids[t].iHash]
  }

  /**
    p stands for a larger group than q; or for one as large, of a shorter prefix; or else the sizes
    after it decide.
   */
  ghost predicate Outdoes(c: seq<nat>, ids: seq<Id>, n: nat, p: Pick, q: Pick)
    requires p.row < |c| == |ids| && q.row < |c|
  {
    var x, y := Size(c, p.col, p.row), Size(c, q.col, q.row);
    x > y || (x == y && (p.col < q.col ||
      (p.col == q.col && Greater(Sizes(c, ids, n, p.row), Sizes(c, ids, n, q.row), p.col))))
  }

  /** The first of those entries, periodic ones apart, that outdo no other. */
  ghost predicate Least(c: seq<nat>, ids: seq<Id>, n: nat, list: seq<Pick>, m: nat) {
    && RowsIn(c, ids, list) && m < |list| && !list[m].periodic
    && forall k :: 0 <= k < |list| && !list[k].periodic ==>
         if k < m then Outdoes(c, ids, n, list[k], list[m]) else !Outdoes(c, ids, n, list[m], list[k])
  }

  /** The entry has a row of the last group for column i, the one that ends. */
  ghost predicate InLast(c: seq<nat>, i: nat, p: Pick) {
    c != [] && First(c, i, |c| - 1) <= p.row
  }

  ghost predicate SomeInLast(c: seq<nat>, i: nat, list: seq<Pick>) {
    exists m :: 0 <= m < |list| && InLast(c, i, list[m])
  }

  ghost predicate PeriodicInLast(c: seq<nat>, i: nat, list: seq<Pick>) {
    exists m :: 0 <= m < |list| && InLast(c, i, list[m]) && list[m].periodic
  }

  /** The last of those entries of that group that none of them outdoes. */
  ghost predicate Heir(c: seq<nat>, ids: seq<Id>, n: nat, i: nat, list: seq<Pick>, u: nat) {
    && RowsIn(c, ids, list) && u < |list| && InLast(c, i, list[u])
    && forall m :: 0 <= m < |list| && InLast(c, i, list[m]) ==>
         if m > u then Outdoes(c, ids, n, list[u], list[m]) else !Outdoes(c, ids, n, list[m], list[u])
  }

  function Without(list: seq<Pick>, m: nat): seq<Pick>
    requires m < |list|
  {
    list[..m] + list[m + 1..]
  }

  /** Entry p is no better than the least one of a full list. */
  ghost predicate Rejected(c: seq<nat>, ids: seq<Id>, n: nat, mx: nat, list: seq<Pick>, p: Pick) {
    |list| == mx && p.row < |c| && exists m: nat :: Least(c, ids, n, list, m) && !Outdoes(c, ids, n, p, list[m])
  }

  /** A new entry at the end; if the list is full, the least one makes room. */
  ghost predicate Appended(c: seq<nat>, ids: seq<Id>, n: nat, mx: nat, list: seq<Pick>, p: Pick, list': seq<Pick>) {
    if |list| < mx then list' == list + [p]
    else exists m: nat :: Least(c, ids, n, list, m) && list' == Without(list, m) + [p]
  }

  /**
    The group of p is ending.  If a periodic sample is in it, or p is rejected, nothing happens; if another entry
    is, the best one stands for this group from now on; if none is, p is appended.
   */
  ghost predicate Offered(c: seq<nat>, ids: seq<Id>, n: nat, mx: nat, list: seq<Pick>, p: Pick, list': seq<Pick>) {
    if Rejected(c, ids, n, mx, list, p) || PeriodicInLast(c, p.col, list) then list' == list
    else if SomeInLast(c, p.col, list) then
      exists u: nat :: Heir(c, ids, n, p.col, list, u) && list' == list[u := list[u].(col := p.col)]
    else Appended(c, ids, n, mx, list, p, list')
  }

  /** The last group for column i ends: its first best row is offered. */
  ghost predicate GroupEnds(c: seq<nat>, ids: seq<Id>, n: nat, mx: nat, list: seq<Pick>, i: nat, list': seq<Pick>) {
    exists t: nat :: IsTopOfLast(c, ids, n, i, t) && Offered(c, ids, n, mx, list, Pick(t, i, false), list')
  }

  ghost predicate IsTopOfLast(c: seq<nat>, ids: seq<Id>, n: nat, i: nat, t: nat) {
    t < |c| == |ids| && First(c, i, |c| - 1) <= t && Top(c, ids, n, i, t)
  }

  /** The last groups for the columns from x on end, the longest prefix first; the whole row is not a group. */
  ghost predicate GroupsEnd(c: seq<nat>, ids: seq<Id>, n: nat, mx: nat, list: seq<Pick>, x: nat, list': seq<Pick>)
    decreases n - x
  {
    if x + 1 >= n then list' == list
    else exists mid :: GroupsEnd(c, ids, n, mx, list, x + 1, mid) && GroupEnds(c, ids, n, mx, mid, x, list')
  }

  /** The last row is a periodic sample if its number is a multiple of nPSample. */
  ghost predicate RowTaken(c: seq<nat>, ids: seq<Id>, n: nat, mx: nat, nPSample: nat, list: seq<Pick>,
                           list': seq<Pick>) {
    && c != [] && nPSample > 0
    && if Quot(nPSample, |c|) == Quot(nPSample, |c| - 1) then list' == list
       else Appended(c, ids, n, mx, list, Pick(|c| - 1, 0, true), list')
  }

  /** The list after the rows c: before each row but the first, the groups end that it does not belong to. */
  ghost predicate ListAfter(c: seq<nat>, ids: seq<Id>, n: nat, mx: nat, nPSample: nat, list: seq<Pick>)
    decreases |c|, 1
  {
    if c == [] then list == []
    else exists list0, list1 :: ListStep(c, ids, n, mx, nPSample, list0, list1, list)
  }

  ghost predicate ListStep(c: seq<nat>, ids: seq<Id>, n: nat, mx: nat, nPSample: nat, list0: seq<Pick>,
                           list1: seq<Pick>, list: seq<Pick>)
    decreases |c|, 0
  {
    && 0 < |c| == |ids|
    && var k := |c| - 1;
       && ListAfter(c[..k], ids[..k], n, mx, nPSample, list0)
       && (if k == 0 then list1 == list0 else GroupsEnd(c[..k], ids[..k], n, mx, list0, c[k], list1))
       && RowTaken(c, ids, n, mx, nPSample, list1, list)
  }

  /** The list in the end, when all groups have ended. */
  ghost predicate FinalList(c: seq<nat>, ids: seq<Id>, n: nat, mx: nat, nPSample: nat, list: seq<Pick>) {
    exists before :: ListAfter(c, ids, n, mx, nPSample, before) && GroupsEnd(c, ids, n, mx, before, 0, list)
  }

  // ---------------------------------------------------------------------------------------------
  // There is only one such list

  lemma LeastIsOne(c: seq<nat>, ids: seq<Id>, n: nat, list: seq<Pick>, k: nat, m: nat)
    requires Least(c, ids, n, list, k) && Least(c, ids, n, list, m)
    ensures k == m
  {
    hide Outdoes;
  }

  lemma HeirIsOne(c: seq<nat>, ids: seq<Id>, n: nat, i: nat, list: seq<Pick>, k: nat, m: nat)
    requires Heir(c, ids, n, i, list, k) && Heir(c, ids, n, i, list, m)
    ensures k == m
  {
    hide Outdoes;
  }

  lemma TopIsOne(c: seq<nat>, ids: seq<Id>, n: nat, i: nat, t: nat, u: nat)
    requires IsTopOfLast(c, ids, n, i, t) && IsTopOfLast(c, ids, n, i, u)
    ensures t == u
  {
    hide Beats;
    LastGroup(c, i, t);
    LastGroup(c, i, u);
    assert Prefers(c, ids, n, i, t, u) && Prefers(c, ids, n, i, u, t);
  }

  lemma OfferedIsOne(c: seq<nat>, ids: seq<Id>, n: nat, mx: nat, list: seq<Pick>, p: Pick, a: seq<Pick>, b: seq<Pick>)
    requires Offered(c, ids, n, mx, list, p, a) && Offered(c, ids, n, mx, list, p, b)
    ensures a == b
  {
    hide InLast, Outdoes;
    if !Rejected(c, ids, n, mx, list, p) && !PeriodicInLast(c, p.col, list) {
      if SomeInLast(c, p.col, list) {
        var k: nat :| Heir(c, ids, n, p.col, list, k) && a == list[k := list[k].(col := p.col)];
        var m: nat :| Heir(c, ids, n, p.col, list, m) && b == list[m := list[m].(col := p.col)];
        HeirIsOne(c, ids, n, p.col, list, k, m);
      } else {
        AppendedIsOne(c, ids, n, mx, list, p, a, b);
      }
    }
  }

  lemma AppendedIsOne(c: seq<nat>, ids: seq<Id>, n: nat, mx: nat, list: seq<Pick>, p: Pick, a: seq<Pick>, b: seq<Pick>)
    requires Appended(c, ids, n, mx, list, p, a) && Appended(c, ids, n, mx, list, p, b)
    ensures a == b
  {
    hide Outdoes;
    if |list| >= mx {
      var k: nat :| Least(c, ids, n, list, k) && a == Without(list, k) + [p];
      var m: nat :| Least(c, ids, n, list, m) && b == Without(list, m) + [p];
      LeastIsOne(c, ids, n, list, k, m);
    }
  }

  lemma {:induction false} GroupsEndIsOne(c: seq<nat>, ids: seq<Id>, n: nat, mx: nat, list: seq<Pick>, x: nat,
                                          a: seq<Pick>, b: seq<Pick>)
    requires GroupsEnd(c, ids, n, mx, list, x, a) && GroupsEnd(c, ids, n, mx, list, x, b)
    ensures a == b
    decreases n - x
  {
    hide Offered, IsTopOfLast;
    if x + 1 < n {
      var k :| GroupsEnd(c, ids, n, mx, list, x + 1, k) && GroupEnds(c, ids, n, mx, k, x, a);
      var m :| GroupsEnd(c, ids, n, mx, list, x + 1, m) && GroupEnds(c, ids, n, mx, m, x, b);
      GroupsEndIsOne(c, ids, n, mx, list, x + 1, k, m);
      var t: nat :| IsTopOfLast(c, ids, n, x, t) && Offered(c, ids, n, mx, k, Pick(t, x, false), a);
      var u: nat :| IsTopOfLast(c, ids, n, x, u) && Offered(c, ids, n, mx, m, Pick(u, x, false), b);
      TopIsOne(c, ids, n, x, t, u);
      OfferedIsOne(c, ids, n, mx, k, Pick(t, x, false), a, b);
    }
  }

  lemma {:induction false} ListAfterIsOne(c: seq<nat>, ids: seq<Id>, n: nat, mx: nat, nPSample: nat, a: seq<Pick>,
                                          b: seq<Pick>)
    requires ListAfter(c, ids, n, mx, nPSample, a) && ListAfter(c, ids, n, mx, nPSample, b)
    ensures a == b
    decreases |c|
  {
    hide GroupsEnd, Appended;
    if c != [] {
      var k: nat := |c| - 1;
      var a0, a1 :| ListStep(c, ids, n, mx, nPSample, a0, a1, a);
      var b0, b1 :| ListStep(c, ids, n, mx, nPSample, b0, b1, b);
      ListAfterIsOne(c[..k], ids[..k], n, mx, nPSample, a0, b0);
      if k > 0 { GroupsEndIsOne(c[..k], ids[..k], n, mx, a0, c[k], a1, b1); }
      if Quot(nPSample, |c|) != Quot(nPSample, |c| - 1) {
        AppendedIsOne(c, ids, n, mx, a1, Pick(|c| - 1, 0, true), a, b);
      }
    }
  }

  /** The rows, their hashes and the sizes decide everything. */
  lemma FinalListIsOne(c: seq<nat>, ids: seq<Id>, n: nat, mx: nat, nPSample: nat, a: seq<Pick>, b: seq<Pick>)
    requires FinalList(c, ids, n, mx, nPSample, a) && FinalList(c, ids, n, mx, nPSample, b)
    ensures a == b
  {
    hide ListAfter, GroupsEnd;
    var k :| ListAfter(c, ids, n, mx, nPSample, k) && GroupsEnd(c, ids, n, mx, k, 0, a);
    var m :| ListAfter(c, ids, n, mx, nPSample, m) && GroupsEnd(c, ids, n, mx, m, 0, b);
    ListAfterIsOne(c, ids, n, mx, nPSample, k, m);
    GroupsEndIsOne(c, ids, n, mx, k, 0, a, b);
  }
}
