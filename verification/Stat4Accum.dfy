/**
  The STAT4 accumulator of sqlcipher/src/analyze.c: stat_init, stat_push and stat_get, and the scan of an
  index that calls them.
 */
module Stat4Accum {
  import opened Arith
  import opened Common
  import opened PrefixGroups
  import opened Stat4Samples
  import opened Stat4Counts
  import opened Stat4Choice
  import opened Stat4Picks
  import opened StatText

  /** The state of the sample list when the counts for columns x and above are final in every group. */
  ghost predicate Sampled(c: seq<nat>, ids: seq<Id>, n: nat, mx: nat, a: seq<Sample>, iMin: nat, x: nat) {
    && AllSettled(c, ids, n, a, x) && Ordered(n, a)
    && MinOk(mx, a, iMin)
    && AllCovered(c, n, mx, a, iMin, x)
  }

  // ---------------------------------------------------------------------------------------------
  // samplePushPrevious

  /** One turn of the first loop: the best row of the ending i-group enters the list if it is good enough. */
  method PushBest(ghost c: seq<nat>, ghost ids: seq<Id>, n: nat, mx: nat, a: seq<Sample>, iMin: nat, pBest: Sample,
                  i: nat)
    returns (b: seq<Sample>, iMin': nat)
    requires Wide(c, n) && Candidate(c, ids, n, pBest, i) && i < n - 1
    requires Pushing(c, ids, n, mx, a, iMin, i + 1) && Periodics(a) < mx
    ensures Pushing(c, ids, n, mx, b, iMin', i) && Periodics(b) == Periodics(a)
    ensures GroupEnds(c, ids, n, mx, PicksOf(a), i, PicksOf(b))
    ensures if |a| < mx || Better(pBest, a[iMin]) then Inserted(mx, a, iMin, pBest, i, b) else b == a && iMin' == iMin
  {
    hide Top, Chosen, MidAt, LessOk, CoveredAt, AllBacked, GroupEnds;
    MidIsShaped(c, ids, n, a, i + 1);
    InsertIsReady(c, ids, n, mx, a, iMin, pBest, i);
    var push := |a| < mx;
    if !push {
      assert ShapedSample(n, a[iMin]);
      push := SampleIsBetter(pBest, a[iMin]);
    }
    if push {
      b, iMin' := SampleInsert(n, mx, a, iMin, pBest, i);
      InsertKeepsPushing(c, ids, n, mx, a, iMin, pBest, i, b, iMin');
      InsertIsOffered(c, ids, n, mx, a, iMin, pBest, i, b);
    } else {
      b, iMin' := a, iMin;
      RejectIsOffered(c, ids, n, mx, a, iMin, pBest, i);
      RejectedIsCovered(c, ids, n, mx, a, iMin, pBest, i);
      RejectedIsBacked(c, ids, n, mx, a, iMin, pBest, i);
      AllMidLower(c, ids, n, a, i);
      CoverLower(c, ids, n, mx, a, iMin, pBest, i);
    }
  }

  lemma CandidateFromBest(c: seq<nat>, ids: seq<Id>, n: nat, aBest: seq<Sample>, i: nat, cur: Sample)
    requires Wide(c, n) && c != [] && BestRows(c, ids, n, aBest) && Current(c, ids, n, cur) && i < n - 1
    ensures |aBest[i].anEq| == |cur.anEq| == n
    ensures Candidate(c, ids, n, aBest[i].(anEq := aBest[i].anEq[i := cur.anEq[i]]), i)
  {
    assert Best(c, ids, n, aBest[i], i);
    BestBecomesCandidate(c, ids, n, aBest[i], i, cur);
  }

  /** The first i entries of aBest[] have not been touched. */
  ghost predicate SameBelow(aBest: seq<Sample>, best: seq<Sample>, i: nat) {
    |best| == |aBest| && forall k :: 0 <= k < i && k < |aBest| ==> best[k] == aBest[k]
  }

  method SetBest(ghost aBest: seq<Sample>, best: seq<Sample>, i: nat, s: Sample) returns (r: seq<Sample>)
    requires SameBelow(aBest, best, i + 1) && i < |best|
    ensures SameBelow(aBest, r, i) && r == best[i := s]
  {
    r := best[i := s];
  }

  /** The first loop of samplePushPrevious. */
  method PushBests(ghost c: seq<nat>, ghost ids: seq<Id>, n: nat, mx: nat, a: seq<Sample>, iMin: nat,
                   aBest: seq<Sample>,
                   cur: Sample, iChng: nat)
    returns (b: seq<Sample>, iMin': nat, best: seq<Sample>)
    requires Wide(c, n) && Current(c, ids, n, cur) && iChng < n && c != [] && BestRows(c, ids, n, aBest)
    requires Pushing(c, ids, n, mx, a, iMin, n - 1) && Periodics(a) < mx
    ensures Pushing(c, ids, n, mx, b, iMin', iChng) && Periodics(b) == Periodics(a)
    ensures SameBelow(aBest, best, iChng) && GroupsEnd(c, ids, n, mx, PicksOf(a), iChng, PicksOf(b))
  {
    hide GroupEnds, Top, Chosen, Mid, Ordered, AllBacked, AllCovered, MinOk, AllReady, Candidate, Current, Best;
    hide PicksOf, Periodics;
    b, iMin', best := a, iMin, aBest;
    var i := n - 2;
    while i >= iChng
      invariant iChng - 1 <= i <= n - 2
      invariant SameBelow(aBest, best, i + 1)
      invariant Pushing(c, ids, n, mx, b, iMin', i + 1) && Periodics(b) == Periodics(a)
      invariant GroupsEnd(c, ids, n, mx, PicksOf(a), i + 1, PicksOf(b))
    {
      CandidateFromBest(c, ids, n, aBest, i, cur);
      var pBest := aBest[i].(anEq := aBest[i].anEq[i := cur.anEq[i]]);
      best := SetBest(aBest, best, i, pBest);
      b, iMin' := PushBest(c, ids, n, mx, b, iMin', pBest, i);
      i := i - 1;
    }
  }

  ghost predicate AllFilled(a: seq<Sample>, b: seq<Sample>, cur: Sample, x: nat) {
    |a| == |b| && forall m :: 0 <= m < |a| ==> FilledFrom(a[m], b[m], cur, x)
  }

  /** The inner loop over the columns of one sample. */
  method FillSample(s: Sample, cur: Sample, iChng: nat) returns (r: Sample)
    requires |s.anEq| == |cur.anEq| && iChng <= |s.anEq|
    ensures FilledFrom(s, r, cur, iChng)
  {
    var anEq := s.anEq;
    for j := iChng to |s.anEq|
      invariant |anEq| == |s.anEq|
      invariant forall k :: 0 <= k < |anEq| ==>
        anEq[k] == if iChng <= k < j && s.anEq[k] == 0 then cur.anEq[k] else s.anEq[k]
    {
      if anEq[j] == 0 { anEq := anEq[j := cur.anEq[j]]; }
    }
    r := s.(anEq := anEq);
  }

  /** The second loop: the counts of the groups that end now. */
  method FillCounts(n: nat, a: seq<Sample>, cur: Sample, iChng: nat) returns (b: seq<Sample>)
    requires Shaped(n, a) && |cur.anEq| == n && iChng <= n
    ensures AllFilled(a, b, cur, iChng)
  {
    b := a;
    var i := |a|;
    while i > 0
      invariant 0 <= i <= |a| == |b| && b[..i] == a[..i]
      invariant forall m :: i <= m < |a| ==> FilledFrom(a[m], b[m], cur, iChng)
    {
      i := i - 1;
      assert ShapedSample(n, a[i]) && b[i] == a[i];
      var r := FillSample(b[i], cur, iChng);
      b := b[i := r];
    }
  }

  lemma FilledIsSampled(c: seq<nat>, ids: seq<Id>, n: nat, mx: nat, a: seq<Sample>, iMin: nat, b: seq<Sample>,
                        cur: Sample, x: nat)
    requires Wide(c, n) && x < n && Pushing(c, ids, n, mx, a, iMin, x)
    requires Current(c, ids, n, cur) && AllFilled(a, b, cur, x)
    ensures Sampled(c, ids, n, mx, b, iMin, x) && Periodics(b) == Periodics(a)
  {
    forall m | 0 <= m < |a| ensures Settled(c, ids, n, b[m], x) && SameStanding(a[m], b[m]) {
      FillSettles(c, ids, n, a[m], b[m], cur, x);
    }
    StandingKeepsPeriodics(a, b);
    StandingKeepsCover(c, n, mx, a, b, iMin, x);
    MidIsShaped(c, ids, n, a, x);
    FilledKeepsMin(n, mx, a, b, iMin, cur, x);
    OrderedSameRows(n, a, b);
  }

  lemma FilledKeepsPicks(a: seq<Sample>, b: seq<Sample>, cur: Sample, x: nat)
    requires AllFilled(a, b, cur, x)
    ensures PicksOf(b) == PicksOf(a)
  {
    forall m | 0 <= m < |a| ensures PickOf(b[m]) == PickOf(a[m]) { assert FilledFrom(a[m], b[m], cur, x); }
  }

  lemma OrderedSameRows(n: nat, a: seq<Sample>, b: seq<Sample>)
    requires Ordered(n, a) && AllSameStanding(a, b)
    ensures Ordered(n, b)
  {
    forall m | 0 <= m < |a| ensures b[m].anLt == a[m].anLt && |b[m].anLt| == n && RowOf(b[m]) == RowOf(a[m]) {
      SameRow(a[m], b[m]);
    }
  }

  lemma SameRow(s: Sample, s': Sample)
    requires |s.anLt| > 0 && s'.anLt == s.anLt
    ensures RowOf(s') == RowOf(s)
  {
  }

  // ---------------------------------------------------------------------------------------------
  // statPush

  /** r has the counts of the row after cur's, which first differs in column x. */
  ghost predicate Counted(cur: Sample, r: Sample, x: nat) {
    && |cur.anEq| == |cur.anLt| == |cur.anDLt| == |r.anEq| == |r.anLt| == |r.anDLt|
    && r == cur.(anEq := r.anEq, anLt := r.anLt, anDLt := r.anDLt)
    && forall j :: 0 <= j < |r.anEq| ==> CountedAt(cur, r, x, j)
  }

  ghost predicate CountedAt(cur: Sample, r: Sample, x: nat, j: nat)
    requires j < |cur.anEq| == |cur.anLt| == |cur.anDLt| == |r.anEq| == |r.anLt| == |r.anDLt|
  {
    if j < x then r.anEq[j] == cur.anEq[j] + 1 && r.anLt[j] == cur.anLt[j] && r.anDLt[j] == cur.anDLt[j]
    else r.anEq[j] == 1 && r.anLt[j] == cur.anLt[j] + cur.anEq[j] && r.anDLt[j] == cur.anDLt[j] + 1
  }

  /** The two loops that update the counts for the next row. */
  method NextCounts(cur: Sample, iChng: nat) returns (r: Sample)
    requires |cur.anEq| == |cur.anLt| == |cur.anDLt| && iChng <= |cur.anEq|
    ensures Counted(cur, r, iChng)
  {
    var n := |cur.anEq|;
    var anEq, anLt, anDLt := cur.anEq, cur.anLt, cur.anDLt;
    for i := 0 to iChng
      invariant |anEq| == n
      invariant forall j :: 0 <= j < n ==> anEq[j] == if j < i then cur.anEq[j] + 1 else cur.anEq[j]
    {
      anEq := anEq[i := anEq[i] + 1];
    }
    ghost var grown := anEq;
    for i := iChng to n
      invariant |anEq| == |anLt| == |anDLt| == n
      invariant forall j :: 0 <= j < n ==> anEq[j] == if iChng <= j < i then 1 else grown[j]
      invariant forall j :: 0 <= j < n ==> anLt[j] == if iChng <= j < i then cur.anLt[j] + cur.anEq[j] else cur.anLt[j]
      invariant forall j :: 0 <= j < n ==> anDLt[j] == if iChng <= j < i then cur.anDLt[j] + 1 else cur.anDLt[j]
    {
      anDLt := anDLt[i := anDLt[i] + 1];
      anLt := anLt[i := anLt[i] + anEq[i]];
      anEq := anEq[i := 1];
    }
    r := cur.(anEq := anEq, anLt := anLt, anDLt := anDLt);
  }

  lemma CountedIsCurrent(c: seq<nat>, ids: seq<Id>, n: nat, cur: Sample, r: Sample, x: nat, id: Id)
    requires Wide(c, n) && x < n && Current(c, ids, n, cur)
    requires Counted(cur, r.(rowid := cur.rowid, iHash := cur.iHash), x) && Id(r.rowid, r.iHash) == id
    ensures Current(c + [x], ids + [id], n, r)
  {
    var d, t, q := c + [x], |c| - 1, r.(rowid := cur.rowid, iHash := cur.iHash);
    forall j | 0 <= j < n
      ensures LessOk(d, r.(anLt := r.anLt[n - 1 := |c|]), j)
      ensures r.anEq[j] == |d| - r.anLt[j] && (j == n - 1 ==> r.anLt[j] == |c|)
    {
      assert LessOk(c, cur, j) && CountedAt(cur, q, x, j);
      AppendRow(c, x, j, t);
    }
    assert r.anLt[n - 1 := |c|] == r.anLt;
  }

  /** Before the first row: every count is 0. */
  ghost predicate Unset(n: nat, s: Sample, i: nat) {
    |s.anEq| == |s.anLt| == |s.anDLt| == n && s.iCol == i && !s.isPSample
    && forall j :: 0 <= j < n ==> s.anEq[j] == s.anLt[j] == s.anDLt[j] == 0
  }

  ghost predicate BestRows(c: seq<nat>, ids: seq<Id>, n: nat, aBest: seq<Sample>) {
    |aBest| == n && forall i: nat :: i < n - 1 ==>
      if c == [] then Unset(n, aBest[i], i) else Best(c, ids, n, aBest[i], i)
  }

  /** The first best row of the i-group is s's row, or the current one if that is preferred. */
  ghost predicate Keepable(c: seq<nat>, ids: seq<Id>, n: nat, s: Sample, i: nat, cur: Sample) {
    && |s.anEq| == |cur.anEq| == n && s.iCol == i && 0 < |c| == |ids|
    && if BetterFrom(i + 1, cur, s) then Top(c, ids, n, i, |c| - 1) else Best(c, ids, n, s, i)
  }

  /** The samples of two rows are compared by what the rows are. */
  lemma CurrentBeats(c: seq<nat>, ids: seq<Id>, n: nat, s: Sample, i: nat, cur: Sample)
    requires Current(c, ids, n, cur) && Of(c, ids, n, s) && i < n - 1
    requires forall j: nat :: i < j < n ==> CountedUpTo(s, j)
    ensures BetterFrom(i + 1, cur, s) <==> Beats(c, ids, n, i, |c| - 1, RowOf(s))
  {
    var t, u: nat := |c| - 1, RowOf(s);
    var x, y := Keys(c, ids, n, t), Keys(c, ids, n, u);
    forall j: nat | i < j <= n ensures Numbers(cur)[j] == x[j] && Numbers(s)[j] == y[j] {
      if j < n { assert LessOk(c, cur, j) && LessOk(c, s, j) && CountedUpTo(s, j); }
    }
    BetterFromIsGreater(cur, s, i, i + 1);
    GreaterFrom(Numbers(cur), Numbers(s), x, y, i);
  }

  /** The next row of an i-group becomes its best row if it beats the one so far. */
  lemma NextTop(c: seq<nat>, ids: seq<Id>, n: nat, i: nat, x: nat, id: Id, t: nat)
    requires t < |c| == |ids| && Top(c, ids, n, i, t) && End(c, i, t) == |c| && i < x
    ensures if Beats(c + [x], ids + [id], n, i, |c|, t) then Top(c + [x], ids + [id], n, i, |c|)
            else Top(c + [x], ids + [id], n, i, t)
  {
    hide Greater, Keys;
    var d, e := c + [x], ids + [id];
    AppendRow(c, x, i, t);
    AppendRow(c, x, i, |c| - 1);
    LastGroup(c, i, t);
    assert First(d, i, |c|) == First(d, i, |c| - 1) == First(c, i, t);
    forall u: nat | First(c, i, t) <= u < |c|
      ensures if u < t then Beats(d, e, n, i, t, u) else !Beats(d, e, n, i, u, t)
    {
      assert Prefers(c, ids, n, i, t, u);
      AppendKeepsKeys(c, ids, n, x, id, t);
      AppendKeepsKeys(c, ids, n, x, id, u);
    }
    if Beats(d, e, n, i, |c|, t) {
      forall u: nat | First(c, i, t) <= u < |c| + 1 ensures Prefers(d, e, n, i, |c|, u) {
        var r, k, m := Keys(d, e, n, |c|), Keys(d, e, n, t), Keys(d, e, n, u);
        GreaterIsStrict(k, m, i);
        GreaterIsStrict(r, r, i);
        if u < |c| {
          assert if u < t then Beats(d, e, n, i, t, u) else !Beats(d, e, n, i, u, t);
          GreaterOn(r, k, m, i);
        }
      }
    }
  }

  /**
    The row before the current one, if it shares the columns up to i + 1 with it, loses to it; any other
    best row of the i-group was the last of its (i+1)-group.
   */
  lemma BestIsKeepable(c: seq<nat>, ids: seq<Id>, n: nat, s: Sample, i: nat, x: nat, id: Id, cur: Sample)
    requires Wide(c, n) && Best(c, ids, n, s, i) && i < x < n && i < n - 1 && Current(c + [x], ids + [id], n, cur)
    ensures Keepable(c + [x], ids + [id], n, s, i, cur)
  {
    hide Top, Beats;
    var d, t := c + [x], RowOf(s);
    AppendKeepsOf(c, ids, n, s, x, id);
    AppendRow(c, x, i, t);
    NextTop(c, ids, n, i, x, id, t);
    CurrentBeats(d, ids + [id], n, s, i, cur);
    if t == |c| - 1 && x > i + 1 {
      assert CountedUpTo(s, i + 1) && LessOk(d, s, i + 1) && LessOk(d, cur, i + 1);
      assert First(d, i + 1, |c|) == First(d, i + 1, t);
      assert cur.anEq[i + 1] > s.anEq[i + 1];
      assert BetterFrom(i + 1, cur, s);
    }
  }

  lemma UnsetIsKeepable(ids: seq<Id>, n: nat, s: Sample, i: nat, cur: Sample)
    requires Unset(n, s, i) && i < n - 1 && Current([0], ids, n, cur)
    ensures Keepable([0], ids, n, s, i, cur)
  {
    assert LessOk([0], cur, i + 1);
    assert cur.anEq[i + 1] == 1 > s.anEq[i + 1];
    GreaterIsStrict(Keys([0], ids, n, 0), Keys([0], ids, n, 0), i);
  }

  /** The first row of an i-group is its best one so far. */
  lemma FirstIsTop(c: seq<nat>, ids: seq<Id>, n: nat, i: nat)
    requires 0 < |c| == |ids| && c[|c| - 1] <= i
    ensures Top(c, ids, n, i, |c| - 1)
  {
    GreaterIsStrict(Keys(c, ids, n, |c| - 1), Keys(c, ids, n, |c| - 1), i);
  }

  lemma CurrentIsBest(c: seq<nat>, ids: seq<Id>, n: nat, cur: Sample, i: nat)
    requires Wide(c, n) && Current(c, ids, n, cur) && !cur.isPSample && i < n - 1 && Top(c, ids, n, i, |c| - 1)
    ensures Best(c, ids, n, cur.(iCol := i), i)
  {
    var s := cur.(iCol := i);
    forall j | 0 <= j < n ensures LessOk(c, s, j) && CountedUpTo(s, j) { assert LessOk(c, cur, j); }
  }

  /** The loop that updates aBest[]. */
  method UpdateBest(ghost c: seq<nat>, ghost ids: seq<Id>, n: nat, aBest: seq<Sample>, cur: Sample, iChng: nat)
    returns (best: seq<Sample>, cur': Sample)
    requires Wide(c, n) && Current(c, ids, n, cur) && !cur.isPSample && |aBest| == n && |c| > 0 && c[|c| - 1] <= iChng
    requires forall i: nat :: i < iChng && i < n - 1 ==> Keepable(c, ids, n, aBest[i], i, cur)
    ensures BestRows(c, ids, n, best) && Current(c, ids, n, cur') && cur' == cur.(iCol := cur'.iCol)
  {
    hide Current, Best, BetterFrom, Top;
    best, cur' := aBest, cur;
    var i: nat := 0;
    while i < n - 1
      invariant i <= n - 1 && |best| == n && cur' == cur.(iCol := cur'.iCol)
      invariant forall k: nat :: i <= k < n ==> best[k] == aBest[k]
      invariant forall k: nat :: k < i ==> Best(c, ids, n, best[k], k)
    {
      cur' := cur'.(iCol := i);
      var replace := i >= iChng;
      if replace {
        CurrentHasId(c, ids, n, cur);
        FirstIsTop(c, ids, n, i);
      } else {
        assert Keepable(c, ids, n, aBest[i], i, cur);
        replace := SampleIsBetterPost(cur', best[i]);
        SamePreference(i + 1, cur', cur, best[i]);
      }
      if replace {
        CurrentIsBest(c, ids, n, cur, i);
        best := best[i := cur'];
      }
      i := i + 1;
    }
    CurrentAnyReason(c, ids, n, cur, cur'.iCol);
  }

  lemma CurrentHasId(c: seq<nat>, ids: seq<Id>, n: nat, cur: Sample)
    requires Current(c, ids, n, cur)
    ensures |ids| == |c| > 0
  {
  }

  lemma CurrentAnyReason(c: seq<nat>, ids: seq<Id>, n: nat, cur: Sample, i: nat)
    requires Current(c, ids, n, cur)
    ensures Current(c, ids, n, cur.(iCol := i))
  {
    var s := cur.(iCol := i);
    forall j | 0 <= j < n ensures LessOk(c, s, j) { assert LessOk(c, cur, j); }
  }

  lemma {:induction false} SamePreference(i: nat, x: Sample, y: Sample, s: Sample)
    requires x.anEq == y.anEq && x.iHash == y.iHash && |x.anEq| == |s.anEq|
    ensures BetterFrom(i, x, s) == BetterFrom(i, y, s)
    decreases |x.anEq| - i
  {
    if i < |x.anEq| { SamePreference(i + 1, x, y, s); }
  }

  /** Starting row |c|, which changes column x first. */
  lemma AppendSampled(c: seq<nat>, ids: seq<Id>, n: nat, mx: nat, a: seq<Sample>, iMin: nat, x: nat, id: Id)
    requires Wide(c, n) && x < n && Sampled(c, ids, n, mx, a, iMin, x)
    ensures Sampled(c + [x], ids + [id], n, mx, a, iMin, n - 1)
    ensures forall m :: 0 <= m < |a| ==> RowOf(a[m]) < |c|
  {
    forall m | 0 <= m < |a|
      ensures Settled(c + [x], ids + [id], n, a[m], n - 1)
    {
      AppendSettles(c, ids, n, a[m], x, id);
    }
    AppendCovers(c, n, mx, a, iMin, x);
  }

  lemma PeriodicKeepsSampled(c: seq<nat>, ids: seq<Id>, n: nat, mx: nat, a: seq<Sample>, iMin: nat, s: Sample,
                             b: seq<Sample>, iMin': nat)
    requires Wide(c, n) && Sampled(c, ids, n, mx, a, iMin, n - 1) && Current(c, ids, n, s) && s.isPSample
    requires forall m :: 0 <= m < |a| ==> RowOf(a[m]) < |c| - 1
    requires Inserted(mx, a, iMin, s, n - 1, b) && MinOk(mx, b, iMin')
    ensures Sampled(c, ids, n, mx, b, iMin', n - 1)
  {
    hide Settled, AllSettled, AllCovered, Ordered;
    var last: nat := n - 1;
    var z := Zeroed(s, last);
    CurrentSettles(c, ids, n, s);
    RoomKeepsCounts(c, ids, n, mx, a, iMin, z, last);
    RoomKeepsCovers(c, n, mx, a, iMin, z, iMin', last);
  }

  lemma RoomKeepsCounts(c: seq<nat>, ids: seq<Id>, n: nat, mx: nat, a: seq<Sample>, iMin: nat, z: Sample, x: nat)
    requires AllSettled(c, ids, n, a, x) && Ordered(n, a) && |a| <= mx && (|a| == mx ==> iMin < |a|)
    requires Settled(c, ids, n, z, x) && |z.anLt| == n > 0 && forall m :: 0 <= m < |a| ==> RowOf(a[m]) < RowOf(z)
    ensures AllSettled(c, ids, n, Room(mx, a, iMin) + [z], x) && Ordered(n, Room(mx, a, iMin) + [z])
  {
    hide Settled;
    var r := Room(mx, a, iMin);
    forall m | 0 <= m < |r| ensures Settled(c, ids, n, r[m], x) && |r[m].anLt| == n && RowOf(r[m]) < RowOf(z) {
      var m' := if |a| == mx && m >= iMin then m + 1 else m;
      assert r[m] == a[m'];
    }
    OrderedRoom(n, mx, a, iMin, z);
  }

  lemma RoomKeepsCovers(c: seq<nat>, n: nat, mx: nat, a: seq<Sample>, iMin: nat, z: Sample, iMin': nat, x: nat)
    requires AllCovered(c, n, mx, a, iMin, x) && MinOk(mx, a, iMin)
    requires MinOk(mx, Room(mx, a, iMin) + [z], iMin') && z.isPSample
    ensures AllCovered(c, n, mx, Room(mx, a, iMin) + [z], iMin', x)
  {
    var b := Room(mx, a, iMin) + [z];
    forall j: nat, t: nat | j < n - 1 && t < |c| && (End(c, j, t) < |c| || j >= x)
      ensures CoveredAt(c, mx, b, iMin', j, t)
    {
      assert CoveredAt(c, mx, a, iMin, j, t);
      RoomKeepsCover(mx, a, iMin, z, iMin', First(c, j, t), Size(c, j, t), j);
    }
  }

  lemma SampledIsShaped(c: seq<nat>, ids: seq<Id>, n: nat, mx: nat, a: seq<Sample>, iMin: nat, x: nat)
    requires Sampled(c, ids, n, mx, a, iMin, x)
    ensures Shaped(n, a)
  {
  }

  lemma {:induction false} QuotMonotone(d: nat, x: nat, y: nat)
    requires d > 0 && x <= y
    ensures Quot(d, x) <= Quot(d, y)
  {
    if x >= d { QuotMonotone(d, x - d, y - d); }
  }

  lemma {:induction false} QuotStep(d: nat, x: nat)
    requires d > 0
    ensures Quot(d, x + 1) <= Quot(d, x) + 1
  {
    if x >= d { QuotStep(d, x - d); }
  }

  /** With nPSample == C / (m + 1) + 1, at most m of the first C rows are periodic samples. */
  lemma PeriodicBound(m: nat, C: nat, k: nat)
    requires k <= C
    ensures Quot(Quot(m + 1, C) + 1, k) <= m
  {
    var g := Quot(m + 1, C);
    var p := Quot(g + 1, C);
    QuotMonotone(g + 1, k, C);
    QuotTimes(m + 1, C);
    QuotTimes(g + 1, C);
    Fewer(p, g, m + 1, C);
  }

  lemma Fewer(p: nat, g: nat, m: nat, C: nat)
    requires p * (g + 1) <= C < g * m + m
    ensures p < m
  {
    assert m * (g + 1) == g * m + m;
    if p >= m { Scale(m, p, g + 1); }
  }

  /** Sampling every nPSample-th row yields at most a third of the samples. */
  ghost predicate Rationed(nPSample: nat, nEst: nat, mxSample: nat)
    requires nPSample > 0
  {
    mxSample > 0 && forall k: nat :: k <= nEst ==> Quot(nPSample, k) <= mxSample / 3
  }

  lemma RationLeft(nPSample: nat, nEst: nat, mxSample: nat, k: nat)
    requires nPSample > 0 && Rationed(nPSample, nEst, mxSample) && k <= nEst
    ensures Quot(nPSample, k) < mxSample
  {
  }

  /** nPSample is chosen so that at most a third of the samples are periodic. */
  lemma NPSampleRations(mxSample: nat, C: nat, q: nat)
    requires q == Quot(mxSample / 3 + 1, C) && mxSample > 0
    ensures Rationed(q + 1, C, mxSample)
  {
    var step, third := q + 1, mxSample / 3;
    forall k: nat | k <= C ensures Quot(step, k) <= third { PeriodicBound(third, C, k); }
  }

  /** The current row is a periodic sample if a multiple of nPSample rows has been pushed with it. */
  method AddPeriodic(ghost c: seq<nat>, ghost ids: seq<Id>, n: nat, mx: nat, nPSample: nat, a: seq<Sample>, iMin: nat,
                     cur: Sample)
    returns (b: seq<Sample>, iMin': nat)
    requires Wide(c, n) && Sampled(c, ids, n, mx, a, iMin, n - 1) && Current(c, ids, n, cur)
    requires forall m :: 0 <= m < |a| ==> RowOf(a[m]) < |c| - 1
    requires nPSample > 0 && Periodics(a) == Quot(nPSample, |c| - 1) && Quot(nPSample, |c|) < mx
    ensures Sampled(c, ids, n, mx, b, iMin', n - 1) && Periodics(b) == Quot(nPSample, |c|)
    ensures RowTaken(c, ids, n, mx, nPSample, PicksOf(a), PicksOf(b))
  {
    hide Appended, Sampled, Inserted, LessOk, Quot;
    b, iMin' := a, iMin;
    CurrentIsLast(c, ids, n, cur);
    var nLt := cur.anLt[n - 1];
    var before, r0 := Divide(nLt, nPSample);
    var after, r1 := Divide(nLt + 1, nPSample);
    QuotMonotone(nPSample, nLt, nLt + 1);
    QuotStep(nPSample, nLt);
    if before != after { b, iMin' := InsertPeriodic(c, ids, n, mx, a, iMin, cur); }
  }

  lemma CurrentIsLast(c: seq<nat>, ids: seq<Id>, n: nat, cur: Sample)
    requires Current(c, ids, n, cur)
    ensures |cur.anLt| == n > 0 && cur.anLt[n - 1] == |c| - 1
  {
  }

  method InsertPeriodic(ghost c: seq<nat>, ghost ids: seq<Id>, n: nat, mx: nat, a: seq<Sample>, iMin: nat, cur: Sample)
    returns (b: seq<Sample>, iMin': nat)
    requires Wide(c, n) && Sampled(c, ids, n, mx, a, iMin, n - 1) && Current(c, ids, n, cur)
    requires (forall m :: 0 <= m < |a| ==> RowOf(a[m]) < |c| - 1) && Periodics(a) + 1 < mx
    ensures Sampled(c, ids, n, mx, b, iMin', n - 1) && Periodics(b) == Periodics(a) + 1
    ensures Appended(c, ids, n, mx, PicksOf(a), Pick(|c| - 1, 0, true), PicksOf(b))
  {
    hide LessOk, Settled, AllCovered, Ordered;
    var s := cur.(isPSample := true, iCol := 0);
    SampledIsShaped(c, ids, n, mx, a, iMin, n - 1);
    SettledIsBacked(c, ids, n, a);
    b, iMin' := SampleInsert(n, mx, a, iMin, s, n - 1);
    CurrentPeriodic(c, ids, n, cur);
    PeriodicKeepsSampled(c, ids, n, mx, a, iMin, s, b, iMin');
    CurrentHasId(c, ids, n, cur);
    PeriodicIsAppended(c, ids, n, mx, a, iMin, s, b);
  }

  lemma CurrentPeriodic(c: seq<nat>, ids: seq<Id>, n: nat, cur: Sample)
    requires Current(c, ids, n, cur)
    ensures Current(c, ids, n, cur.(isPSample := true, iCol := 0))
  {
    var s := cur.(isPSample := true, iCol := 0);
    forall j | 0 <= j < n ensures LessOk(c, s, j) { assert LessOk(c, cur, j); }
  }

  /** p->current for the next row. */
  method RowCounts(ghost c: seq<nat>, ghost ids: seq<Id>, n: nat, isFirst: bool, cur: Sample, iChng: nat, id: Id)
    returns (r: Sample)
    requires Wide(c, n) && iChng < n && |ids| == |c| && isFirst == (c == [])
    requires if isFirst then Unset(n, cur, cur.iCol) else Current(c, ids, n, cur)
    ensures Current(c + [if isFirst then 0 else iChng], ids + [id], n, r)
    ensures r.isPSample == cur.isPSample
  {
    if isFirst {
      r := cur.(anEq := seq(n, _ => 1), rowid := id.rowid, iHash := id.iHash);
      assert c + [0] == [0] && ids + [id] == [id];
      forall j | 0 <= j < n ensures LessOk([0], r, j) {}
    } else {
      r := NextCounts(cur, iChng);
      CountedIsCurrent(c, ids, n, cur, r.(rowid := id.rowid, iHash := id.iHash), iChng, id);
      r := r.(rowid := id.rowid, iHash := id.iHash);
    }
  }

  /** The row has been counted, but neither the sample list nor aBest[] has seen it. */
  ghost predicate Begun(c: seq<nat>, ids: seq<Id>, n: nat, mx: nat, a: seq<Sample>, iMin: nat, aBest: seq<Sample>,
                        cur: Sample, iChng: nat) {
    && Wide(c, n) && Sampled(c, ids, n, mx, a, iMin, n - 1)
    && Current(c, ids, n, cur) && !cur.isPSample && |aBest| == n && c != [] && c[|c| - 1] <= iChng
    && (forall m :: 0 <= m < |a| ==> RowOf(a[m]) < |c| - 1)
    && (forall i: nat :: i < iChng && i < n - 1 ==> Keepable(c, ids, n, aBest[i], i, cur))
  }

  lemma NothingSampled(c: seq<nat>, ids: seq<Id>, n: nat, mx: nat, iMin: nat, x: nat, y: nat)
    requires Sampled(c, ids, n, mx, [], iMin, x) && c == []
    ensures Sampled(c, ids, n, mx, [], iMin, y)
  {
  }

  lemma RowBegins(c: seq<nat>, ids: seq<Id>, n: nat, mx: nat, a: seq<Sample>, iMin: nat,
                  aBest: seq<Sample>, best: seq<Sample>, cur: Sample, iChng: nat, x: nat, id: Id)
    requires Wide(c, n) && x < n && Sampled(c, ids, n, mx, a, iMin, x) && BestRows(c, ids, n, aBest)
    requires Current(c + [x], ids + [id], n, cur) && !cur.isPSample
    requires x == (if c == [] then 0 else iChng) && SameBelow(aBest, best, iChng)
    ensures Begun(c + [x], ids + [id], n, mx, a, iMin, best, cur, iChng)
  {
    AppendSampled(c, ids, n, mx, a, iMin, x, id);
    forall i: nat | i < n - 1 && i < iChng ensures Keepable(c + [x], ids + [id], n, best[i], i, cur) {
      if c == [] {
        assert c + [x] == [0];
        UnsetIsKeepable(ids + [id], n, aBest[i], i, cur);
      } else {
        BestIsKeepable(c, ids, n, aBest[i], i, x, id, cur);
      }
    }
  }

  /** The last part of statPush: a periodic sample if one is due, and the best rows. */
  method FinishRow(ghost c: seq<nat>, ghost ids: seq<Id>, n: nat, mx: nat, nPSample: nat, ghost nEst: nat,
                   a: seq<Sample>, iMin: nat,
                   aBest: seq<Sample>, cur: Sample, iChng: nat)
    returns (b: seq<Sample>, iMin': nat, best: seq<Sample>, cur': Sample)
    requires Begun(c, ids, n, mx, a, iMin, aBest, cur, iChng)
    requires nPSample > 0 && Rationed(nPSample, nEst, mx) && |c| <= nEst && Periodics(a) == Quot(nPSample, |c| - 1)
    ensures Sampled(c, ids, n, mx, b, iMin', n - 1) && Periodics(b) == Quot(nPSample, |c|)
    ensures BestRows(c, ids, n, best) && Current(c, ids, n, cur') && !cur'.isPSample && cur' == cur.(iCol := cur'.iCol)
    ensures RowTaken(c, ids, n, mx, nPSample, PicksOf(a), PicksOf(b))
  {
    RationLeft(nPSample, nEst, mx, |c|);
    b, iMin' := AddPeriodic(c, ids, n, mx, nPSample, a, iMin, cur);
    best, cur' := UpdateBest(c, ids, n, aBest, cur, iChng);
  }

  /** One more row. */
  lemma NextList(c: seq<nat>, ids: seq<Id>, n: nat, mx: nat, nPSample: nat, iChng: nat, id: Id, list0: seq<Pick>,
                 list1: seq<Pick>, list: seq<Pick>)
    requires |ids| == |c| && ListAfter(c, ids, n, mx, nPSample, list0)
    requires if c == [] then list1 == list0 else GroupsEnd(c, ids, n, mx, list0, iChng, list1)
    requires RowTaken(c + [if c == [] then 0 else iChng], ids + [id], n, mx, nPSample, list1, list)
    ensures ListAfter(c + [if c == [] then 0 else iChng], ids + [id], n, mx, nPSample, list)
  {
    hide GroupsEnd, RowTaken;
    var d, e := c + [if c == [] then 0 else iChng], ids + [id];
    assert d[..|d| - 1] == c && e[..|d| - 1] == ids;
    assert ListStep(d, e, n, mx, nPSample, list0, list1, list);
  }

  // ---------------------------------------------------------------------------------------------
  // The accumulator object

  /** Stat4Accum */
  class Accum {
    const nCol: nat
    const nKeyCol: nat
    const mxSample: nat
    const nPSample: nat
    var nRow: nat
    var current: Sample
    var iPrn: nat
    var aBest: seq<Sample>
    var iMin: nat
    var iGet: int
    /** The first nSample entries of the array a[]. */
    var a: seq<Sample>

    /** The number of rows announced to stat_init. */
    ghost const nEst: nat
    /** The leftmost changed column, the rowid and the hash of every row pushed. */
    ghost var chng: seq<nat>
    ghost var ids: seq<Id>

    ghost predicate Sizes()
      reads this
    {
      && Wide(chng, nCol) && nKeyCol <= nCol && nRow == |chng| == |ids| <= nEst < LIMIT
      && nPSample > 0 && Rationed(nPSample, nEst, mxSample)
    }

    ghost predicate Rows()
      reads this
    {
      BestRows(chng, ids, nCol, aBest) && !current.isPSample
      && if nRow == 0 then Unset(nCol, current, current.iCol) && a == [] else Current(chng, ids, nCol, current)
    }

    /** Between two calls of stat_push. */
    ghost predicate Scanning()
      reads this
    {
      Sizes() && Rows() && iGet < 0 && Periodics(a) == Quot(nPSample, nRow)
      && Sampled(chng, ids, nCol, mxSample, a, iMin, nCol - 1)
      && ListAfter(chng, ids, nCol, mxSample, nPSample, PicksOf(a))
    }

    /** Once stat_get has completed the counts. */
    ghost predicate Reporting()
      reads this
    {
      Sizes() && iGet >= 0 && nRow > 0 && Periodics(a) == Quot(nPSample, nRow)
      && Current(chng, ids, nCol, current) && Sampled(chng, ids, nCol, mxSample, a, iMin, 0)
      && FinalList(chng, ids, nCol, mxSample, nPSample, PicksOf(a))
    }

    /** statInit; nRowEst is its third argument, and seed the start value of iPrn. */
    constructor (nCol: nat, nKeyCol: nat, nRowEst: nat, mxSample: nat, seed: nat)
      requires 0 < nKeyCol <= nCol && nRowEst < LIMIT && mxSample > 0
      ensures Scanning() && nRow == 0 && nEst == nRowEst && chng == [] && ids == []
      ensures this.nCol == nCol && this.nKeyCol == nKeyCol && this.mxSample == mxSample && iPrn == seed
      ensures nPSample == Quot(mxSample / 3 + 1, nRowEst) + 1
    {
      this.nCol, this.nKeyCol, this.mxSample := nCol, nKeyCol, mxSample;
      var q, r := Divide(nRowEst, mxSample / 3 + 1);
      nPSample := q + 1;
      nRow, iMin, iGet, iPrn, a := 0, 0, -1, seed, [];
      var zeros := seq(nCol, _ => 0);
      current := Sample(zeros, zeros, zeros, 0, false, 0, 0);
      aBest := seq(nCol, i requires 0 <= i < nCol => Sample(zeros, zeros, zeros, 0, false, i, 0));
      nEst, chng, ids := nRowEst, [], [];
      NPSampleRations(mxSample, nRowEst, q);
    }

    /** samplePushPrevious: a group of every column from iChng on ends with the row pushed last. */
    method SamplePushPrevious(iChng: nat)
      requires Scanning() && nRow > 0 && iChng < nCol
      modifies `a, `iMin, `aBest
      ensures Sampled(chng, ids, nCol, mxSample, a, iMin, iChng) && Periodics(a) == old(Periodics(a))
      ensures SameBelow(old(aBest), aBest, iChng)
      ensures GroupsEnd(chng, ids, nCol, mxSample, PicksOf(old(a)), iChng, PicksOf(a))
    {
      hide GroupsEnd, ListAfter, Rationed, BestRows, Top, Chosen, MidAt, LessOk, CoveredAt, AllBacked;
      SettledIsMid(chng, ids, nCol, a);
      SettledIsBacked(chng, ids, nCol, a);
      RationLeft(nPSample, nEst, mxSample, nRow);
      a, iMin, aBest := PushBests(chng, ids, nCol, mxSample, a, iMin, aBest, current, iChng);
      ghost var pushed := a;
      MidIsShaped(chng, ids, nCol, a, iChng);
      a := FillCounts(nCol, a, current, iChng);
      FilledIsSampled(chng, ids, nCol, mxSample, pushed, iMin, a, current, iChng);
      FilledKeepsPicks(pushed, a, current, iChng);
    }

    /** The first part of statPush: the counts of the new row. */
    method BeginRow(iChng: nat, rowid: int)
      requires Scanning() && nRow < nEst && iChng < nCol
      modifies this
      ensures Sizes() && iGet < 0 && iPrn == (old(iPrn) * 1103515245 + 12345) % 0x1_0000_0000 && nRow == |chng|
      ensures chng == old(chng) + [if old(nRow) == 0 then 0 else iChng] && ids == old(ids) + [Id(rowid, iPrn)]
      ensures Begun(chng, ids, nCol, mxSample, a, iMin, aBest, current, iChng)
      ensures Periodics(a) == Quot(nPSample, nRow - 1)
      ensures if old(nRow) == 0 then a == old(a)
              else GroupsEnd(old(chng), old(ids), nCol, mxSample, PicksOf(old(a)), iChng, PicksOf(a))
    {
      hide ListAfter, GroupsEnd, Sampled, Begun, BestRows, Current, Rationed;
      ghost var c, ids0, x := chng, ids, if nRow == 0 then 0 else iChng;
      if nRow > 0 {
        SamplePushPrevious(iChng);
      } else {
        NothingSampled(c, ids0, nCol, mxSample, iMin, nCol - 1, 0);
      }
      iPrn := (iPrn * 1103515245 + 12345) % LIMIT;
      current := RowCounts(c, ids0, nCol, nRow == 0, current, iChng, Id(rowid, iPrn));
      nRow, chng, ids := nRow + 1, c + [x], ids0 + [Id(rowid, iPrn)];
      RowBegins(c, ids0, nCol, mxSample, a, iMin, old(aBest), aBest, current, iChng, x, Id(rowid, iPrn));
    }

    /** statPush: the next row, which first differs from the row before in column iChng. */
    method StatPush(iChng: nat, rowid: int)
      requires Scanning() && nRow < nEst && iChng < nCol
      modifies this
      ensures Scanning() && nRow == old(nRow) + 1 && chng == old(chng) + [if old(nRow) == 0 then 0 else iChng]
      ensures ids == old(ids) + [Id(rowid, iPrn)] && iPrn == (old(iPrn) * 1103515245 + 12345) % 0x1_0000_0000
    {
      hide Sampled, Current, BestRows, Begun, ListAfter, GroupsEnd, RowTaken, PicksOf;
      BeginRow(iChng, rowid);
      ghost var list1 := PicksOf(a);
      a, iMin, aBest, current :=
        FinishRow(chng, ids, nCol, mxSample, nPSample, nEst, a, iMin, aBest, current, iChng);
      NextList(old(chng), old(ids), nCol, mxSample, nPSample, iChng, Id(rowid, iPrn), old(PicksOf(a)), list1,
               PicksOf(a));
    }

    /** statGet with STAT_GET_STAT1 */
    method StatGetStat1() returns (zRet: string)
      requires Scanning() && nRow > 0
      ensures zRet == Spaced(Estimates(nRow, current.anDLt[..nKeyCol]))
    {
      zRet := Stat1(nRow, current.anDLt, nKeyCol);
    }

    /** statGet with STAT_GET_ROWID: the first call completes the counts. */
    method StatGetRowid() returns (rowid: Option<int>)
      requires nRow > 0 && (Scanning() || Reporting())
      modifies `a, `iMin, `aBest, `iGet
      ensures Reporting()
      ensures if old(iGet) < 0 then iGet == 0 else iGet == old(iGet) && a == old(a) && iMin == old(iMin)
      ensures rowid == if iGet < |a| then Some(a[iGet].rowid) else None
    {
      if iGet < 0 {
        SamplePushPrevious(0);
        iGet := 0;
      }
      return if iGet < |a| then Some(a[iGet].rowid) else None;
    }

    /** statGet with STAT_GET_NEQ */
    method StatGetNEq() returns (zRet: string)
      requires Reporting() && iGet < |a|
      ensures zRet == Spaced(a[iGet].anEq)
    {
      SampledIsShaped(chng, ids, nCol, mxSample, a, iMin, 0);
      zRet := Stat4(a[iGet].anEq);
    }

    /** statGet with STAT_GET_NLT */
    method StatGetNLt() returns (zRet: string)
      requires Reporting() && iGet < |a|
      ensures zRet == Spaced(a[iGet].anLt)
    {
      SampledIsShaped(chng, ids, nCol, mxSample, a, iMin, 0);
      zRet := Stat4(a[iGet].anLt);
    }

    /** statGet with STAT_GET_NDLT: the next call of the group is for the next sample. */
    method StatGetNDLt() returns (zRet: string)
      requires Reporting() && iGet < |a|
      modifies `iGet
      ensures Reporting() && iGet == old(iGet) + 1
      ensures zRet == Spaced(a[old(iGet)].anDLt)
    {
      SampledIsShaped(chng, ids, nCol, mxSample, a, iMin, 0);
      zRet := Stat4(a[iGet].anDLt);
      iGet := iGet + 1;
    }
  }
}
