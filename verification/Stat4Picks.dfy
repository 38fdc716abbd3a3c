/**
  The samples of the STAT4 accumulator (sqlcipher/src/analyze.c) are the entries of Stat4Choice: what each
  operation on the sample list means for the entries.
 */
module Stat4Picks {
  import opened Arith
  import opened PrefixGroups
  import opened Stat4Samples
  import opened Stat4Counts
  import opened Stat4Choice

  function PickOf(s: Sample): Pick {
    Pick(if s.anLt == [] then 0 else RowOf(s), s.iCol, s.isPSample)
  }

  function PicksOf(a: seq<Sample>): (list: seq<Pick>)
    ensures |list| == |a| && forall m :: 0 <= m < |a| ==> list[m] == PickOf(a[m])
  {
    seq(|a|, m requires 0 <= m < |a| => PickOf(a[m]))
  }

  /** The counts by which a sample is compared are those of its row. */
  ghost predicate Exact(c: seq<nat>, ids: seq<Id>, n: nat, s: Sample) {
    && |s.anEq| == |s.anLt| == n > 0 && RowOf(s) < |c| == |ids| && ids[RowOf(s)].iHash == s.iHash
    && (!s.isPSample ==> s.iCol < n && forall j: nat :: s.iCol <= j < n ==> s.anEq[j] == Size(c, j, RowOf(s)))
  }

  ghost predicate AllExact(c: seq<nat>, ids: seq<Id>, n: nat, a: seq<Sample>) {
    |ids| == |c| && forall m :: 0 <= m < |a| ==> Exact(c, ids, n, a[m])
  }

  lemma BetterIsOutdoes(c: seq<nat>, ids: seq<Id>, n: nat, x: Sample, y: Sample)
    requires Exact(c, ids, n, x) && Exact(c, ids, n, y) && !x.isPSample && !y.isPSample
    ensures Better(x, y) <==> Outdoes(c, ids, n, PickOf(x), PickOf(y))
  {
    hide Size, Greater;
    if x.iCol == y.iCol {
      BetterFromIsGreater(x, y, x.iCol, x.iCol + 1);
      GreaterFrom(Numbers(x), Numbers(y), Sizes(c, ids, n, RowOf(x)), Sizes(c, ids, n, RowOf(y)), x.iCol);
    }
  }

  lemma MidIsExact(c: seq<nat>, ids: seq<Id>, n: nat, a: seq<Sample>, lo: nat)
    requires |ids| == |c| && AllMid(c, ids, n, a, lo) && AllReady(a)
    ensures AllExact(c, ids, n, a)
  {
    hide Chosen, MidAt, LessOk;
    forall m | 0 <= m < |a| ensures Exact(c, ids, n, a[m]) {
      if !a[m].isPSample {
        forall j: nat | a[m].iCol <= j < n ensures a[m].anEq[j] == Size(c, j, RowOf(a[m])) {
          ReadyIsExact(c, ids, n, a[m], lo, j);
        }
      }
    }
  }

  lemma SettledIsExact(c: seq<nat>, ids: seq<Id>, n: nat, a: seq<Sample>, x: nat)
    requires Wide(c, n) && x < n && |ids| == |c| && AllSettled(c, ids, n, a, x)
    ensures AllExact(c, ids, n, a)
  {
    hide Chosen, LessOk;
    forall m | 0 <= m < |a| ensures Exact(c, ids, n, a[m]) {
      SettledIsReady(c, ids, n, a[m], x);
      forall j: nat | a[m].iCol <= j < n && !a[m].isPSample ensures a[m].anEq[j] == Size(c, j, RowOf(a[m])) {
        assert SettledAt(c, a[m], j, x);
      }
    }
  }

  lemma CandidateIsExact(c: seq<nat>, ids: seq<Id>, n: nat, s: Sample, i: nat)
    requires Candidate(c, ids, n, s, i) && i < n
    ensures Exact(c, ids, n, s) && PickOf(s) == Pick(RowOf(s), i, false) && IsTopOfLast(c, ids, n, i, RowOf(s))
  {
    hide Top;
    LastGroup(c, i, RowOf(s));
  }

  lemma ExactRows(c: seq<nat>, ids: seq<Id>, n: nat, a: seq<Sample>)
    requires AllExact(c, ids, n, a)
    ensures RowsIn(c, ids, PicksOf(a))
  {
    hide Size;
    forall m | 0 <= m < |a| ensures PicksOf(a)[m].row < |c| { assert Exact(c, ids, n, a[m]); }
  }

  lemma MinIsLeast(c: seq<nat>, ids: seq<Id>, n: nat, a: seq<Sample>, iMin: nat)
    requires AllExact(c, ids, n, a) && IsMin(a, iMin)
    ensures Least(c, ids, n, PicksOf(a), iMin)
  {
    hide Exact, Better, Outdoes;
    ExactRows(c, ids, n, a);
    var list := PicksOf(a);
    forall k | 0 <= k < |list| && !list[k].periodic
      ensures if k < iMin then Outdoes(c, ids, n, list[k], list[iMin]) else !Outdoes(c, ids, n, list[iMin], list[k])
    {
      assert NoWorse(a, k, iMin);
      BetterIsOutdoes(c, ids, n, a[k], a[iMin]);
      BetterIsOutdoes(c, ids, n, a[iMin], a[k]);
    }
  }

  /** A full list rejects a candidate exactly if that is not better than the sample iMin. */
  lemma RejectedExactly(c: seq<nat>, ids: seq<Id>, n: nat, mx: nat, a: seq<Sample>, iMin: nat, pNew: Sample)
    requires AllExact(c, ids, n, a) && MinOk(mx, a, iMin) && Exact(c, ids, n, pNew) && !pNew.isPSample
    ensures Rejected(c, ids, n, mx, PicksOf(a), PickOf(pNew)) <==>
      |a| == mx && |a[iMin].anEq| == |pNew.anEq| && !Better(pNew, a[iMin])
  {
    hide Better, Outdoes, NoWorse;
    if |a| == mx {
      assert Exact(c, ids, n, a[iMin]);
      hide Exact;
      MinIsLeast(c, ids, n, a, iMin);
      BetterIsOutdoes(c, ids, n, pNew, a[iMin]);
      forall m: nat | Least(c, ids, n, PicksOf(a), m) ensures m == iMin {
        LeastIsOne(c, ids, n, PicksOf(a), m, iMin);
      }
    }
  }

  lemma SharesIsInLast(c: seq<nat>, ids: seq<Id>, n: nat, a: seq<Sample>, pNew: Sample, i: nat)
    requires Wide(c, n) && AllMid(c, ids, n, a, i + 1) && Candidate(c, ids, n, pNew, i) && i < n - 1
    ensures forall m :: 0 <= m < |a| ==> (Shares(a[m], i) <==> InLast(c, i, PicksOf(a)[m]))
    ensures SomeShares(a, i) <==> SomeInLast(c, i, PicksOf(a))
    ensures SomePeriodicShares(a, i) <==> PeriodicInLast(c, i, PicksOf(a))
  {
    var list := PicksOf(a);
    forall m | 0 <= m < |a| ensures Shares(a[m], i) <==> InLast(c, i, list[m]) {
      WhoShares(c, ids, n, a[m], pNew, i);
      LastGroup(c, i, RowOf(a[m]));
    }
    hide Shares, InLast, Mid;
    if SomeInLast(c, i, list) {
      var m :| 0 <= m < |list| && InLast(c, i, list[m]);
      assert Shares(a[m], i);
    }
    if SomeShares(a, i) {
      var m :| 0 <= m < |a| && Shares(a[m], i);
      assert InLast(c, i, list[m]);
    }
    if PeriodicInLast(c, i, list) {
      var m :| 0 <= m < |list| && InLast(c, i, list[m]) && list[m].periodic;
      assert Shares(a[m], i) && a[m].isPSample;
    }
    if SomePeriodicShares(a, i) {
      var m :| 0 <= m < |a| && Shares(a[m], i) && a[m].isPSample;
      assert InLast(c, i, list[m]) && list[m].periodic;
    }
  }

  lemma BestIsHeir(c: seq<nat>, ids: seq<Id>, n: nat, a: seq<Sample>, i: nat, u: nat)
    requires AllExact(c, ids, n, a) && BestShares(a, i, u) && !SomePeriodicShares(a, i)
    requires forall m :: 0 <= m < |a| ==> (Shares(a[m], i) <==> InLast(c, i, PicksOf(a)[m]))
    ensures Heir(c, ids, n, i, PicksOf(a), u)
  {
    hide Exact, Better, Outdoes, InLast;
    ExactRows(c, ids, n, a);
    var list := PicksOf(a);
    forall m | 0 <= m < |list| && InLast(c, i, list[m])
      ensures if m > u then Outdoes(c, ids, n, list[u], list[m]) else !Outdoes(c, ids, n, list[m], list[u])
    {
      assert Shares(a[m], i) && Shares(a[u], i) && NoBetter(a, m, u);
      BetterIsOutdoes(c, ids, n, a[m], a[u]);
      BetterIsOutdoes(c, ids, n, a[u], a[m]);
    }
  }

  lemma PicksOfBoth(a: seq<Sample>, b: seq<Sample>)
    ensures PicksOf(a + b) == PicksOf(a) + PicksOf(b)
  {
  }

  lemma PicksOfParts(a: seq<Sample>, m: nat)
    requires m < |a|
    ensures PicksOf(a[..m] + a[m + 1..]) == Without(PicksOf(a), m)
  {
    PicksOfBoth(a[..m], a[m + 1..]);
    assert PicksOf(a[..m]) == PicksOf(a)[..m] && PicksOf(a[m + 1..]) == PicksOf(a)[m + 1..];
  }

  lemma RoomIsAppended(c: seq<nat>, ids: seq<Id>, n: nat, mx: nat, a: seq<Sample>, iMin: nat, s: Sample, z: nat)
    requires AllExact(c, ids, n, a) && MinOk(mx, a, iMin) && z <= |s.anEq|
    ensures Appended(c, ids, n, mx, PicksOf(a), PickOf(s), PicksOf(Room(mx, a, iMin) + [Zeroed(s, z)]))
  {
    hide Exact, NoWorse, PicksOf, Without, Outdoes;
    PicksOfBoth(Room(mx, a, iMin), [Zeroed(s, z)]);
    OnePick(s, z);
    if |a| == mx {
      MinIsLeast(c, ids, n, a, iMin);
      PicksOfParts(a, iMin);
    }
  }

  lemma OnePick(s: Sample, z: nat)
    requires z <= |s.anEq|
    ensures PicksOf([Zeroed(s, z)]) == [PickOf(s)]
  {
  }

  lemma OfferedAppended(c: seq<nat>, ids: seq<Id>, n: nat, mx: nat, list: seq<Pick>, p: Pick, list': seq<Pick>)
    requires !Rejected(c, ids, n, mx, list, p) && !PeriodicInLast(c, p.col, list) && !SomeInLast(c, p.col, list)
    requires Appended(c, ids, n, mx, list, p, list')
    ensures Offered(c, ids, n, mx, list, p, list')
  {
  }

  lemma OfferedHeir(c: seq<nat>, ids: seq<Id>, n: nat, mx: nat, list: seq<Pick>, p: Pick, u: nat)
    requires !Rejected(c, ids, n, mx, list, p) && !PeriodicInLast(c, p.col, list) && Heir(c, ids, n, p.col, list, u)
    ensures Offered(c, ids, n, mx, list, p, list[u := list[u].(col := p.col)])
  {
    hide Rejected, PeriodicInLast;
  }

  lemma TopOffered(c: seq<nat>, ids: seq<Id>, n: nat, mx: nat, list: seq<Pick>, t: nat, i: nat, list': seq<Pick>)
    requires IsTopOfLast(c, ids, n, i, t) && Offered(c, ids, n, mx, list, Pick(t, i, false), list')
    ensures GroupEnds(c, ids, n, mx, list, i, list')
  {
  }

  /** sampleInsert, for a candidate that is not rejected. */
  lemma InsertIsOffered(c: seq<nat>, ids: seq<Id>, n: nat, mx: nat, a: seq<Sample>, iMin: nat, pNew: Sample, i: nat,
                        b: seq<Sample>)
    requires Wide(c, n) && Pushing(c, ids, n, mx, a, iMin, i + 1) && Candidate(c, ids, n, pNew, i) && i < n - 1
    requires |a| < mx || Better(pNew, a[iMin])
    requires Inserted(mx, a, iMin, pNew, i, b)
    ensures GroupEnds(c, ids, n, mx, PicksOf(a), i, PicksOf(b))
  {
    hide Mid, Candidate, AllReady, Ordered, AllCovered, AllBacked, Top, Exact, Better, IsMin, Heir, InLast;
    hide GroupEnds, IsTopOfLast, Rejected, Offered, PeriodicInLast, SomeInLast, Appended;
    CandidateRows(c, ids, n, pNew, i);
    MidIsExact(c, ids, n, a, i + 1);
    CandidateIsExact(c, ids, n, pNew, i);
    RejectedExactly(c, ids, n, mx, a, iMin, pNew);
    SharesIsInLast(c, ids, n, a, pNew, i);
    var p := PickOf(pNew);
    if !SomeShares(a, i) {
      NoneIsPeriodic(a, i);
      RoomIsAppended(c, ids, n, mx, a, iMin, pNew, i);
      OfferedAppended(c, ids, n, mx, PicksOf(a), p, PicksOf(b));
    } else if SomePeriodicShares(a, i) {
      OfferedInVain(c, ids, n, mx, PicksOf(a), p);
    } else {
      var u: nat :| BestShares(a, i, u) && b == a[u := Upgraded(a[u], i, Weight(pNew))];
      BestIsHeir(c, ids, n, a, i, u);
      OfferedHeir(c, ids, n, mx, PicksOf(a), p, u);
      assert PicksOf(b) == PicksOf(a)[u := PicksOf(a)[u].(col := i)];
    }
    TopOffered(c, ids, n, mx, PicksOf(a), p.row, i, PicksOf(b));
  }

  lemma OfferedInVain(c: seq<nat>, ids: seq<Id>, n: nat, mx: nat, list: seq<Pick>, p: Pick)
    requires Rejected(c, ids, n, mx, list, p) || PeriodicInLast(c, p.col, list)
    ensures Offered(c, ids, n, mx, list, p, list)
  {
  }

  lemma NoneIsPeriodic(a: seq<Sample>, i: nat)
    requires !SomeShares(a, i)
    ensures !SomePeriodicShares(a, i)
  {
  }

  lemma CandidateRows(c: seq<nat>, ids: seq<Id>, n: nat, s: Sample, i: nat)
    requires Candidate(c, ids, n, s, i)
    ensures |ids| == |c| && s.iCol == i && !s.isPSample
  {
  }

  lemma RejectIsOffered(c: seq<nat>, ids: seq<Id>, n: nat, mx: nat, a: seq<Sample>, iMin: nat, pNew: Sample, i: nat)
    requires Wide(c, n) && Pushing(c, ids, n, mx, a, iMin, i + 1) && Candidate(c, ids, n, pNew, i) && i < n - 1
    requires |a| == mx && |a[iMin].anEq| == |pNew.anEq| && !Better(pNew, a[iMin])
    ensures GroupEnds(c, ids, n, mx, PicksOf(a), i, PicksOf(a))
  {
    hide Mid, Candidate, AllReady, Ordered, AllCovered, AllBacked, Top, Exact, Better, GroupEnds, IsTopOfLast, Offered;
    CandidateRows(c, ids, n, pNew, i);
    MidIsExact(c, ids, n, a, i + 1);
    CandidateIsExact(c, ids, n, pNew, i);
    RejectedExactly(c, ids, n, mx, a, iMin, pNew);
    OfferedInVain(c, ids, n, mx, PicksOf(a), PickOf(pNew));
    TopOffered(c, ids, n, mx, PicksOf(a), PickOf(pNew).row, i, PicksOf(a));
  }

  /** The last row enters the list as a periodic sample. */
  lemma PeriodicIsAppended(c: seq<nat>, ids: seq<Id>, n: nat, mx: nat, a: seq<Sample>, iMin: nat, s: Sample,
                           b: seq<Sample>)
    requires Wide(c, n) && |ids| == |c| && AllSettled(c, ids, n, a, n - 1) && MinOk(mx, a, iMin)
    requires Current(c, ids, n, s) && s.isPSample && s.iCol == 0 && Inserted(mx, a, iMin, s, n - 1, b)
    ensures Appended(c, ids, n, mx, PicksOf(a), Pick(|c| - 1, 0, true), PicksOf(b))
  {
    hide Settled, Exact, IsMin;
    SettledIsExact(c, ids, n, a, n - 1);
    RoomIsAppended(c, ids, n, mx, a, iMin, s, n - 1);
    LastPick(c, ids, n, s);
  }

  lemma LastPick(c: seq<nat>, ids: seq<Id>, n: nat, s: Sample)
    requires Current(c, ids, n, s) && s.isPSample && s.iCol == 0
    ensures PickOf(s) == Pick(|c| - 1, 0, true)
  {
  }
}
