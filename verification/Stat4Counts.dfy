/**
  What the counts in the samples of the STAT4 accumulator mean while the rows of an index are pushed
  (sqlcipher/src/analyze.c).  c holds the leftmost changed column of every row so far, ids their rowids and
  hashes.
 */
module Stat4Counts {
  import opened PrefixGroups
  import opened Stat4Samples

  /** What identifies a row, and the hash it is given to break ties. */
  datatype Id = Id(rowid: int, iHash: nat)

  ghost predicate Wide(c: seq<nat>, n: nat) {
    n > 0 && forall t :: 0 <= t < |c| ==> c[t] < n
  }

  /** Rows are distinct, so the number of smaller rows is the position of a sample's row. */
  function RowOf(s: Sample): nat
    requires |s.anLt| > 0
  {
    s.anLt[|s.anLt| - 1]
  }

  /** s was taken from a row pushed before, with that row's anLt and anDLt. */
  ghost predicate Of(c: seq<nat>, ids: seq<Id>, n: nat, s: Sample) {
    && ShapedSample(n, s)
    && |ids| == |c| && RowOf(s) < |c| && Id(s.rowid, s.iHash) == ids[RowOf(s)]
    && forall j :: 0 <= j < n ==> LessOk(c, s, j)
  }

  ghost predicate LessOk(c: seq<nat>, s: Sample, j: nat)
    requires |s.anLt| > 0 && RowOf(s) < |c|
  {
    j < |s.anLt| && j < |s.anDLt| && s.anLt[j] == First(c, j, RowOf(s)) && s.anDLt[j] == Groups(c, j, RowOf(s))
  }

  /** The row's group for column j is the one still being scanned. */
  ghost predicate Open(c: seq<nat>, s: Sample, j: nat)
    requires |s.anLt| > 0 && RowOf(s) < |c|
  {
    End(c, j, RowOf(s)) == |c|
  }

  /** anEq[j] is final if the group has ended or j >= x, and 0 otherwise. */
  ghost predicate SettledAt(c: seq<nat>, s: Sample, j: nat, x: nat)
    requires |s.anLt| > 0 && RowOf(s) < |c| && j < |s.anEq|
  {
    s.anEq[j] == if !Open(c, s, j) || j >= x then Size(c, j, RowOf(s)) else 0
  }

  /** In the course of samplePushPrevious: the open groups for columns lo and above may be final or 0. */
  ghost predicate MidAt(c: seq<nat>, s: Sample, j: nat, lo: nat)
    requires |s.anLt| > 0 && RowOf(s) < |c| && j < |s.anEq|
  {
    if !Open(c, s, j) || j == |s.anEq| - 1 then s.anEq[j] == Size(c, j, RowOf(s))
    else s.anEq[j] == 0 || (j >= lo && s.anEq[j] == Size(c, j, RowOf(s)))
  }

  ghost predicate Settled(c: seq<nat>, ids: seq<Id>, n: nat, s: Sample, x: nat) {
    && Of(c, ids, n, s) && (!s.isPSample ==> s.anEq[s.iCol] > 0 && Chosen(c, ids, n, s, x))
    && forall j :: 0 <= j < n ==> SettledAt(c, s, j, x)
  }

  ghost predicate Mid(c: seq<nat>, ids: seq<Id>, n: nat, s: Sample, lo: nat) {
    && Of(c, ids, n, s) && (!s.isPSample ==> s.anEq[s.iCol] > 0 && Chosen(c, ids, n, s, lo))
    && forall j :: 0 <= j < n ==> MidAt(c, s, j, lo)
  }

  ghost predicate AllSettled(c: seq<nat>, ids: seq<Id>, n: nat, a: seq<Sample>, x: nat) {
    forall m :: 0 <= m < |a| ==> Settled(c, ids, n, a[m], x)
  }

  ghost predicate AllMid(c: seq<nat>, ids: seq<Id>, n: nat, a: seq<Sample>, lo: nat) {
    forall m :: 0 <= m < |a| ==> Mid(c, ids, n, a[m], lo)
  }

  /** The samples are in the order of their rows, no two from one row. */
  ghost predicate Ordered(n: nat, a: seq<Sample>) {
    && (forall m :: 0 <= m < |a| ==> |a[m].anLt| == n > 0)
    && forall l, m {:trigger a[l], a[m]} :: 0 <= l < m < |a| ==> RowOf(a[l]) < RowOf(a[m])
  }

  // ---------------------------------------------------------------------------------------------
  // Which row of a group is sampled

  /** For each column j how many rows of its j-group there are up to row t, and then the row's hash. */
  ghost function Keys(c: seq<nat>, ids: seq<Id>, n: nat, t: nat): (k: seq<nat>)
    requires t < |c| == |ids|
    ensures |k| == n + 1 && k[n] == ids[t].iHash && forall j :: 0 <= j < n ==> k[j] == t + 1 - First(c, j, t)
  {
    seq(n, j requires 0 <= j < n => t + 1 - First(c, j, t)) + [ids[t].iHash]
  }

  /** Of two rows of an i-group, t has the greater first different number after column i. */
  ghost predicate Beats(c: seq<nat>, ids: seq<Id>, n: nat, i: nat, t: nat, u: nat)
    requires t < |c| == |ids| && u < |c|
  {
    Greater(Keys(c, ids, n, t), Keys(c, ids, n, u), i)
  }

  /** t beats the rows before it, and no later one beats it. */
  ghost predicate Prefers(c: seq<nat>, ids: seq<Id>, n: nat, i: nat, t: nat, u: nat)
    requires t < |c| == |ids| && u < |c|
  {
    if u < t then Beats(c, ids, n, i, t, u) else !Beats(c, ids, n, i, u, t)
  }

  /** Row t is the first best row of its i-group. */
  ghost predicate Top(c: seq<nat>, ids: seq<Id>, n: nat, i: nat, t: nat)
    requires t < |c| == |ids|
  {
    forall u: nat :: First(c, i, t) <= u < End(c, i, t) ==> Prefers(c, ids, n, i, t, u)
  }

  /**
    s was taken as the best row of a group that has ended, or ends now with a column from lo on: of the
    group for the prefix it stands for or for a longer one.
   */
  ghost predicate Chosen(c: seq<nat>, ids: seq<Id>, n: nat, s: Sample, lo: nat)
    requires |s.anLt| > 0 && RowOf(s) < |c| == |ids|
  {
    exists k: nat :: s.iCol <= k < n - 1 && (End(c, k, RowOf(s)) < |c| || k >= lo) && Top(c, ids, n, k, RowOf(s))
  }

  /** The numbers of a row do not change when another one is pushed. */
  lemma AppendKeepsKeys(c: seq<nat>, ids: seq<Id>, n: nat, x: nat, id: Id, t: nat)
    requires t < |c| == |ids|
    ensures Keys(c + [x], ids + [id], n, t) == Keys(c, ids, n, t)
  {
    forall j: nat ensures First(c + [x], j, t) == First(c, j, t) { AppendRow(c, x, j, t); }
  }

  /** Nor does the best row of a group that has ended. */
  lemma AppendKeepsTop(c: seq<nat>, ids: seq<Id>, n: nat, x: nat, id: Id, i: nat, t: nat)
    requires t < |c| == |ids| && Top(c, ids, n, i, t) && (End(c, i, t) < |c| || i >= x)
    ensures Top(c + [x], ids + [id], n, i, t) && End(c + [x], i, t) < |c| + 1
  {
    hide Greater;
    AppendRow(c, x, i, t);
    forall u: nat | First(c, i, t) <= u < End(c, i, t) ensures Prefers(c + [x], ids + [id], n, i, t, u) {
      assert Prefers(c, ids, n, i, t, u);
      AppendKeepsKeys(c, ids, n, x, id, t);
      AppendKeepsKeys(c, ids, n, x, id, u);
    }
  }

  lemma AppendKeepsChosen(c: seq<nat>, ids: seq<Id>, n: nat, s: Sample, x: nat, id: Id, lo: nat)
    requires |s.anLt| > 0 && RowOf(s) < |c| == |ids| && Chosen(c, ids, n, s, x)
    ensures Chosen(c + [x], ids + [id], n, s, lo)
  {
    hide Top;
    var k: nat :| s.iCol <= k < n - 1 && (End(c, k, RowOf(s)) < |c| || k >= x) && Top(c, ids, n, k, RowOf(s));
    AppendKeepsTop(c, ids, n, x, id, k, RowOf(s));
  }

  /** Every prefix that has ended, or ends now with a column from lo on, is covered by the list. */
  ghost predicate AllCovered(c: seq<nat>, n: nat, mx: nat, a: seq<Sample>, iMin: nat, lo: nat) {
    forall j: nat, t: nat :: j < n - 1 && t < |c| && (End(c, j, t) < |c| || j >= lo) ==>
      CoveredAt(c, mx, a, iMin, j, t)
  }

  ghost predicate CoveredAt(c: seq<nat>, mx: nat, a: seq<Sample>, iMin: nat, j: nat, t: nat)
    requires t < |c|
  {
    Covered(mx, a, iMin, First(c, j, t), Size(c, j, t), j)
  }

  // ---------------------------------------------------------------------------------------------
  // The current row and the best rows

  /** p->current after its row was pushed: the counts of the current groups so far. */
  ghost predicate Current(c: seq<nat>, ids: seq<Id>, n: nat, s: Sample) {
    && |s.anEq| == |s.anLt| == |s.anDLt| == n > 0
    && |ids| == |c| > 0 && RowOf(s) == |c| - 1 && Id(s.rowid, s.iHash) == ids[|c| - 1]
    && (forall j :: 0 <= j < n ==> LessOk(c, s, j))
    && (forall j :: 0 <= j < n ==> s.anEq[j] == |c| - s.anLt[j])
  }

  /**
    p->aBest[i]: the first best row of the current i-group.  Either it is the current row or it was the last row of its
    (i+1)-group, which is why its counts from column i+1 on are final.
   */
  ghost predicate Best(c: seq<nat>, ids: seq<Id>, n: nat, s: Sample, i: nat) {
    && Of(c, ids, n, s) && !s.isPSample && s.iCol == i && Open(c, s, i) && Top(c, ids, n, i, RowOf(s))
    && (RowOf(s) + 1 < |c| ==> c[RowOf(s) + 1] <= i + 1)
    && forall j: nat :: i < j < n ==> CountedUpTo(s, j)
  }

  /** anEq[j] counts the rows of the group up to the sample's own row. */
  ghost predicate CountedUpTo(s: Sample, j: nat) {
    j < |s.anEq| && j < |s.anLt| && s.anEq[j] + s.anLt[j] == RowOf(s) + 1
  }

  /** A row of the i-group that ends now, with final counts from column i on. */
  ghost predicate Candidate(c: seq<nat>, ids: seq<Id>, n: nat, s: Sample, i: nat) {
    && Of(c, ids, n, s) && !s.isPSample && s.iCol == i && Open(c, s, i) && Top(c, ids, n, i, RowOf(s))
    && forall j: nat :: i <= j < n ==> s.anEq[j] == Size(c, j, RowOf(s))
  }

  lemma BestBecomesCandidate(c: seq<nat>, ids: seq<Id>, n: nat, s: Sample, i: nat, cur: Sample)
    requires Wide(c, n) && Best(c, ids, n, s, i) && Current(c, ids, n, cur) && i < n - 1
    ensures Candidate(c, ids, n, s.(anEq := s.anEq[i := cur.anEq[i]]), i)
  {
    var s' := s.(anEq := s.anEq[i := cur.anEq[i]]);
    var t := RowOf(s);
    forall j | 0 <= j < n ensures LessOk(c, s', j) { assert LessOk(c, s, j); }
    forall j | i <= j < n ensures s'.anEq[j] == Size(c, j, t) {
      assert LessOk(c, s, j) && LessOk(c, cur, j);
      if j == i {
        LastGroup(c, i, t);
      } else {
        assert CountedUpTo(s, j);
        assert End(c, j, t) == t + 1;
      }
    }
  }

  // ---------------------------------------------------------------------------------------------
  // The counts that decide ties

  /** s has the prefix of j + 1 columns that is ending, and was included for it or for a shorter one. */
  ghost predicate StandsIn(c: seq<nat>, s: Sample, j: nat) {
    |s.anLt| > 0 && RowOf(s) < |c| && Open(c, s, j) && (s.isPSample || s.iCol <= j)
  }

  ghost predicate SomeStands(c: seq<nat>, a: seq<Sample>, j: nat) {
    exists l :: 0 <= l < |a| && StandsIn(c, a[l], j)
  }

  /**
    If a count for column lo or above is still missing from a sample included for a longer prefix, that
    is because some sample stands for the prefix already.
   */
  ghost predicate AllBacked(c: seq<nat>, n: nat, a: seq<Sample>, lo: nat) {
    forall m: nat, j: nat :: m < |a| && lo <= j < n && !a[m].isPSample && Shares(a[m], j) ==> SomeStands(c, a, j)
  }

  /** Between two rows, and at the end, a sample has all the counts from its own column on. */
  lemma SettledIsReady(c: seq<nat>, ids: seq<Id>, n: nat, s: Sample, x: nat)
    requires Wide(c, n) && Settled(c, ids, n, s, x) && x < n
    ensures Ready(s)
  {
    if !s.isPSample {
      var t := RowOf(s);
      assert SettledAt(c, s, s.iCol, x);
      forall j | s.iCol <= j < n ensures s.anEq[j] > 0 {
        assert SettledAt(c, s, j, x);
        EndNested(c, s.iCol, j, t);
      }
    }
  }

  /** A count that is there is exact, so the counts by which ready samples are compared are final. */
  lemma ReadyIsExact(c: seq<nat>, ids: seq<Id>, n: nat, s: Sample, lo: nat, j: nat)
    requires Mid(c, ids, n, s, lo) && Ready(s) && !s.isPSample && s.iCol <= j < n
    ensures s.anEq[j] == Size(c, j, RowOf(s))
  {
    assert MidAt(c, s, j, lo);
  }

  /** Before the column lo is reached, every sample of its ending group lacks the count. */
  lemma OpenShares(c: seq<nat>, ids: seq<Id>, n: nat, s: Sample, lo: nat, i: nat, j: nat)
    requires Mid(c, ids, n, s, lo) && i < lo < n && i <= j < n
    ensures Open(c, s, j) ==> Shares(s, i)
    ensures Shares(s, j) ==> Open(c, s, j)
  {
    EndNested(c, i, j, RowOf(s));
    assert MidAt(c, s, i, lo) && MidAt(c, s, j, lo);
  }

  lemma SettledIsBacked(c: seq<nat>, ids: seq<Id>, n: nat, a: seq<Sample>)
    requires Wide(c, n) && AllSettled(c, ids, n, a, n - 1)
    ensures AllReady(a) && AllBacked(c, n, a, n - 1)
  {
    forall m | 0 <= m < |a| ensures Ready(a[m]) && !Shares(a[m], n - 1) {
      SettledIsReady(c, ids, n, a[m], n - 1);
      assert SettledAt(c, a[m], n - 1, n - 1);
    }
  }

  /** Nothing of the ending i-group is in the list, but for periodic samples. */
  lemma NoneShareIsBacked(c: seq<nat>, ids: seq<Id>, n: nat, a: seq<Sample>, i: nat)
    requires AllBacked(c, n, a, i + 1) && forall m :: 0 <= m < |a| && Shares(a[m], i) ==> a[m].isPSample
    ensures AllBacked(c, n, a, i)
  {
  }

  lemma CandidateCounts(c: seq<nat>, ids: seq<Id>, n: nat, s: Sample, i: nat, j: nat)
    requires Candidate(c, ids, n, s, i) && i <= j < n
    ensures !Shares(Zeroed(s, i), j)
  {
  }

  /** A candidate that is not better than the least sample is no better than any. */
  lemma RejectedIsBacked(c: seq<nat>, ids: seq<Id>, n: nat, mx: nat, a: seq<Sample>, iMin: nat, pNew: Sample, i: nat)
    requires Wide(c, n) && AllMid(c, ids, n, a, i + 1) && Candidate(c, ids, n, pNew, i) && i < n - 1
    requires MinOk(mx, a, iMin) && |a| == mx && !Better(pNew, a[iMin]) && AllBacked(c, n, a, i + 1)
    ensures AllBacked(c, n, a, i)
  {
    forall m | 0 <= m < |a| && Shares(a[m], i) ensures a[m].isPSample {
      if !a[m].isPSample {
        CandidateIsBetter(c, ids, n, a[m], pNew, i);
        assert NoWorse(a, m, iMin);
        BetterOrder(pNew, a[m], a[iMin]);
        BetterOrder(pNew, a[iMin], a[m]);
        assert false;
      }
    }
    NoneShareIsBacked(c, ids, n, a, i);
  }

  /** A periodic sample of the ending group keeps the candidate out. */
  lemma BlockedIsBacked(c: seq<nat>, ids: seq<Id>, n: nat, a: seq<Sample>, i: nat)
    requires AllMid(c, ids, n, a, i + 1) && i < n - 1 && SomePeriodicShares(a, i) && AllBacked(c, n, a, i + 1)
    ensures AllBacked(c, n, a, i)
  {
    var l :| 0 <= l < |a| && Shares(a[l], i) && a[l].isPSample;
    OpenShares(c, ids, n, a[l], i + 1, i, i);
    assert StandsIn(c, a[l], i);
  }

  lemma AppendIsBacked(c: seq<nat>, ids: seq<Id>, n: nat, mx: nat, a: seq<Sample>, iMin: nat, pNew: Sample, i: nat)
    requires Wide(c, n) && AllMid(c, ids, n, a, i + 1) && Candidate(c, ids, n, pNew, i) && i < n - 1
    requires |a| <= mx && (|a| == mx ==> iMin < |a|) && !SomeShares(a, i)
    ensures AllBacked(c, n, Room(mx, a, iMin) + [Zeroed(pNew, i)], i)
  {
    hide First, End, Size, Groups, Of, MidAt, Open;
    CandidateIsShaped(c, ids, n, pNew, i);
    var r, b := Room(mx, a, iMin), Room(mx, a, iMin) + [Zeroed(pNew, i)];
    forall m: nat, j: nat | m < |b| && i <= j < n ensures !Shares(b[m], j) {
      if m < |r| {
        var m' := if |a| == mx && m >= iMin then m + 1 else m;
        assert b[m] == r[m] == a[m'] && !Shares(a[m'], i);
        OpenShares(c, ids, n, a[m'], i + 1, i, j);
      } else {
        CandidateCounts(c, ids, n, pNew, i, j);
      }
    }
  }

  /** The best sample of the ending group has all the counts that it will be compared by. */
  lemma UpgradeIsReady(c: seq<nat>, ids: seq<Id>, n: nat, a: seq<Sample>, pNew: Sample, i: nat, u: nat)
    requires Wide(c, n) && AllMid(c, ids, n, a, i + 1) && Candidate(c, ids, n, pNew, i) && i < n - 1
    requires AllReady(a) && AllBacked(c, n, a, i + 1) && BestShares(a, i, u) && !SomePeriodicShares(a, i)
    ensures Ready(Upgraded(a[u], i, Weight(pNew)))
  {
    assert !a[u].isPSample && Mid(c, ids, n, a[u], i + 1);
    forall j: nat | i < j < n ensures a[u].anEq[j] > 0 {
      if Shares(a[u], j) {
        OpenShares(c, ids, n, a[u], i + 1, i, j);
        assert SomeStands(c, a, j);
        var l :| 0 <= l < |a| && StandsIn(c, a[l], j);
        OpenShares(c, ids, n, a[l], i + 1, i, j);
        assert Shares(a[l], i) && !a[l].isPSample && NoBetter(a, l, u);
        assert Ready(a[u]) && a[u].iCol > j >= a[l].iCol;
        ShorterIsHeavier(c, ids, n, a[u], a[l], i + 1, j);
        assert false;
      }
    }
  }

  /** Of two samples of one ending group, the one included for that prefix or a shorter one is preferred. */
  lemma ShorterIsHeavier(c: seq<nat>, ids: seq<Id>, n: nat, s: Sample, r: Sample, lo: nat, j: nat)
    requires Wide(c, n) && Mid(c, ids, n, s, lo) && Mid(c, ids, n, r, lo) && !s.isPSample && !r.isPSample
    requires Open(c, s, j) && Open(c, r, j) && r.iCol <= j < s.iCol
    ensures Better(r, s) && !Better(s, r)
  {
    assert MidAt(c, s, s.iCol, lo) && MidAt(c, r, r.iCol, lo);
    var t, v := RowOf(s), RowOf(r);
    LastGroup(c, j, t);
    LastGroup(c, j, v);
    FirstNested(c, j, s.iCol, t);
    EndNested(c, j, s.iCol, t);
    FirstNested(c, r.iCol, j, v);
    EndNested(c, r.iCol, j, v);
  }

  lemma UpgradeIsBacked(c: seq<nat>, ids: seq<Id>, n: nat, a: seq<Sample>, i: nat, u: nat, w: nat)
    requires AllMid(c, ids, n, a, i + 1) && i < n - 1 && AllBacked(c, n, a, i + 1) && u < |a| && Shares(a[u], i)
    requires Ready(Upgraded(a[u], i, w))
    ensures AllBacked(c, n, a[u := Upgraded(a[u], i, w)], i)
  {
    var b := a[u := Upgraded(a[u], i, w)];
    assert Mid(c, ids, n, a[u], i + 1);
    OpenShares(c, ids, n, a[u], i + 1, i, i);
    assert StandsIn(c, b[u], i);
    forall m: nat, j: nat | m < |b| && i < j < n && !b[m].isPSample && Shares(b[m], j) ensures SomeStands(c, b, j) {
      assert Shares(a[m], j) && SomeStands(c, a, j);
      var l :| 0 <= l < |a| && StandsIn(c, a[l], j);
      assert StandsIn(c, b[l], j);
    }
  }

  // ---------------------------------------------------------------------------------------------
  // One candidate enters

  lemma SettledIsMid(c: seq<nat>, ids: seq<Id>, n: nat, a: seq<Sample>)
    requires n > 0 && AllSettled(c, ids, n, a, n - 1)
    ensures AllMid(c, ids, n, a, n - 1)
  {
    var x: nat := n - 1;
    forall m | 0 <= m < |a| ensures Mid(c, ids, n, a[m], x) {
      forall j | 0 <= j < n ensures MidAt(c, a[m], j, x) { assert SettledAt(c, a[m], j, x); }
    }
  }

  lemma MidLower(c: seq<nat>, ids: seq<Id>, n: nat, s: Sample, i: nat)
    requires Mid(c, ids, n, s, i + 1)
    ensures Mid(c, ids, n, s, i)
  {
    forall j | 0 <= j < n ensures MidAt(c, s, j, i) { assert MidAt(c, s, j, i + 1); }
  }

  lemma ZeroedIsMid(c: seq<nat>, ids: seq<Id>, n: nat, s: Sample, i: nat)
    requires Wide(c, n) && Candidate(c, ids, n, s, i) && i < n - 1
    ensures Mid(c, ids, n, Zeroed(s, i), i)
  {
    var z, t := Zeroed(s, i), RowOf(s);
    forall j | 0 <= j < n ensures LessOk(c, z, j) { assert LessOk(c, s, j); }
    forall j | 0 <= j < n ensures MidAt(c, z, j, i) {
      if j < i { EndNested(c, j, i, t); }
    }
  }

  /** Which samples share the prefix that ends in column i. */
  lemma WhoShares(c: seq<nat>, ids: seq<Id>, n: nat, s: Sample, pNew: Sample, i: nat)
    requires Wide(c, n) && Mid(c, ids, n, s, i + 1) && Candidate(c, ids, n, pNew, i) && i < n - 1
    ensures Shares(s, i) <==> Open(c, s, i)
    ensures Shares(s, i) ==> s.anLt[i] == pNew.anLt[i]
    ensures !Shares(s, i) ==> RowOf(s) < RowOf(pNew)
  {
    assert MidAt(c, s, i, i + 1) && LessOk(c, s, i) && LessOk(c, pNew, i);
    LastGroup(c, i, RowOf(s));
    LastGroup(c, i, RowOf(pNew));
  }

  /** The assertions in sampleInsert about a sample that shares the candidate's prefix. */
  lemma CandidateIsBetter(c: seq<nat>, ids: seq<Id>, n: nat, s: Sample, pNew: Sample, i: nat)
    requires Wide(c, n) && Mid(c, ids, n, s, i + 1) && Candidate(c, ids, n, pNew, i) && i < n - 1
    requires Shares(s, i) && !s.isPSample
    ensures s.iCol > i && Better(pNew, s) && !Lighter(pNew, s)
  {
    WhoShares(c, ids, n, s, pNew, i);
    var k, t := s.iCol, RowOf(s);
    assert MidAt(c, s, k, i + 1);
    if k <= i {
      EndNested(c, k, i, t);
      assert false;
    }
    assert Weight(s) == Size(c, k, t);
    FirstNested(c, i, k, t);
    EndNested(c, i, k, t);
    assert LessOk(c, s, i) && LessOk(c, pNew, i);
    assert Weight(pNew) == Size(c, i, t);
  }

  lemma UpgradedIsMid(c: seq<nat>, ids: seq<Id>, n: nat, s: Sample, pNew: Sample, i: nat)
    requires Wide(c, n) && Mid(c, ids, n, s, i + 1) && Candidate(c, ids, n, pNew, i) && i < n - 1
    requires Shares(s, i)
    ensures Mid(c, ids, n, Upgraded(s, i, Weight(pNew)), i)
  {
    WhoShares(c, ids, n, s, pNew, i);
    if !s.isPSample { CandidateIsBetter(c, ids, n, s, pNew, i); }
    var s' := Upgraded(s, i, Weight(pNew));
    forall j | 0 <= j < n ensures LessOk(c, s', j) { assert LessOk(c, s, j); }
    assert LessOk(c, s, i) && LessOk(c, pNew, i);
    forall j | 0 <= j < n ensures MidAt(c, s', j, i) { assert MidAt(c, s, j, i + 1); }
  }

  /** Inserting a candidate keeps the counts of the samples right and their rows in order. */
  lemma InsertKeepsCounts(c: seq<nat>, ids: seq<Id>, n: nat, mx: nat, a: seq<Sample>, iMin: nat, pNew: Sample, i: nat,
                          b: seq<Sample>)
    requires Wide(c, n) && AllMid(c, ids, n, a, i + 1) && Candidate(c, ids, n, pNew, i) && i < n - 1
    requires Inserted(mx, a, iMin, pNew, i, b) && Ordered(n, a)
    ensures AllMid(c, ids, n, b, i) && Ordered(n, b)
  {
    AllMidLower(c, ids, n, a, i);
    if !SomeShares(a, i) {
      AppendKeepsCounts(c, ids, n, mx, a, iMin, pNew, i);
    } else if !SomePeriodicShares(a, i) {
      var u: nat :| BestShares(a, i, u) && b == a[u := Upgraded(a[u], i, Weight(pNew))];
      UpgradedIsMid(c, ids, n, a[u], pNew, i);
      ReplaceKeepsCounts(c, ids, n, a, u, b[u], i);
    }
  }

  lemma AllMidLower(c: seq<nat>, ids: seq<Id>, n: nat, a: seq<Sample>, i: nat)
    requires AllMid(c, ids, n, a, i + 1)
    ensures AllMid(c, ids, n, a, i)
  {
    forall m | 0 <= m < |a| ensures Mid(c, ids, n, a[m], i) { MidLower(c, ids, n, a[m], i); }
  }

  lemma ReplaceKeepsCounts(c: seq<nat>, ids: seq<Id>, n: nat, a: seq<Sample>, u: nat, s: Sample, i: nat)
    requires AllMid(c, ids, n, a, i) && Ordered(n, a) && u < |a| && Mid(c, ids, n, s, i) && s.anLt == a[u].anLt
    ensures AllMid(c, ids, n, a[u := s], i) && Ordered(n, a[u := s])
  {
  }

  lemma AppendKeepsCounts(c: seq<nat>, ids: seq<Id>, n: nat, mx: nat, a: seq<Sample>, iMin: nat, pNew: Sample, i: nat)
    requires Wide(c, n) && AllMid(c, ids, n, a, i + 1) && AllMid(c, ids, n, a, i)
    requires Candidate(c, ids, n, pNew, i) && i < n - 1
    requires |a| <= mx && (|a| == mx ==> iMin < |a|) && Ordered(n, a) && !SomeShares(a, i)
    ensures AllMid(c, ids, n, Room(mx, a, iMin) + [Zeroed(pNew, i)], i)
    ensures Ordered(n, Room(mx, a, iMin) + [Zeroed(pNew, i)])
  {
    hide Candidate, Mid, Ordered, RowOf;
    CandidateIsShaped(c, ids, n, pNew, i);
    var r := Room(mx, a, iMin);
    ZeroedIsMid(c, ids, n, pNew, i);
    forall m | 0 <= m < |r| ensures Mid(c, ids, n, r[m], i) && |r[m].anLt| == n && RowOf(r[m]) < RowOf(pNew) {
      var m' := if |a| == mx && m >= iMin then m + 1 else m;
      assert r[m] == a[m'] && Mid(c, ids, n, a[m'], i + 1) && !Shares(a[m'], i);
      WhoShares(c, ids, n, a[m'], pNew, i);
      MidShape(c, ids, n, a[m'], i);
    }
    SameRowZeroed(pNew, i);
    OrderedRoom(n, mx, a, iMin, Zeroed(pNew, i));
  }

  lemma MidShape(c: seq<nat>, ids: seq<Id>, n: nat, s: Sample, i: nat)
    requires Mid(c, ids, n, s, i)
    ensures ShapedSample(n, s)
  {
  }

  lemma SameRowZeroed(s: Sample, i: nat)
    requires i <= |s.anEq| && |s.anLt| > 0
    ensures RowOf(Zeroed(s, i)) == RowOf(s)
  {
  }

  lemma CandidateIsShaped(c: seq<nat>, ids: seq<Id>, n: nat, s: Sample, i: nat)
    requires Candidate(c, ids, n, s, i)
    ensures ShapedSample(n, s)
  {
  }

  lemma OrderedRoom(n: nat, mx: nat, a: seq<Sample>, iMin: nat, s: Sample)
    requires Ordered(n, a) && |a| <= mx && (|a| == mx ==> iMin < |a|) && |s.anLt| == n > 0
    requires forall m :: 0 <= m < |Room(mx, a, iMin)| ==>
      |Room(mx, a, iMin)[m].anLt| > 0 && RowOf(Room(mx, a, iMin)[m]) < RowOf(s)
    ensures Ordered(n, Room(mx, a, iMin) + [s])
  {
  }

  // ---------------------------------------------------------------------------------------------
  // The whole list in the course of samplePushPrevious

  /** The state before aBest[lo - 1] is considered. */
  ghost predicate Pushing(c: seq<nat>, ids: seq<Id>, n: nat, mx: nat, a: seq<Sample>, iMin: nat, lo: nat) {
    && AllMid(c, ids, n, a, lo) && Ordered(n, a)
    && AllReady(a) && AllBacked(c, n, a, lo)
    && MinOk(mx, a, iMin)
    && AllCovered(c, n, mx, a, iMin, lo)
  }

  /** So sampleInsert compares samples by counts that are there. */
  lemma InsertIsReady(c: seq<nat>, ids: seq<Id>, n: nat, mx: nat, a: seq<Sample>, iMin: nat, pNew: Sample, i: nat)
    requires Wide(c, n) && Pushing(c, ids, n, mx, a, iMin, i + 1) && Candidate(c, ids, n, pNew, i) && i < n - 1
    ensures Ready(pNew) && UpgradesReady(a, pNew)
  {
    if !SomePeriodicShares(a, i) {
      forall u: nat | BestShares(a, i, u) ensures Ready(Upgraded(a[u], i, Weight(pNew))) {
        UpgradeIsReady(c, ids, n, a, pNew, i, u);
      }
    }
  }

  lemma InsertIsBacked(c: seq<nat>, ids: seq<Id>, n: nat, mx: nat, a: seq<Sample>, iMin: nat, pNew: Sample, i: nat,
                       b: seq<Sample>)
    requires Wide(c, n) && AllMid(c, ids, n, a, i + 1) && Candidate(c, ids, n, pNew, i) && i < n - 1
    requires Inserted(mx, a, iMin, pNew, i, b) && AllBacked(c, n, a, i + 1) && AllReady(b)
    ensures AllBacked(c, n, b, i)
  {
    if !SomeShares(a, i) {
      AppendIsBacked(c, ids, n, mx, a, iMin, pNew, i);
    } else if SomePeriodicShares(a, i) {
      BlockedIsBacked(c, ids, n, a, i);
    } else {
      var u: nat :| BestShares(a, i, u) && b == a[u := Upgraded(a[u], i, Weight(pNew))];
      assert Ready(b[u]);
      UpgradeIsBacked(c, ids, n, a, i, u, Weight(pNew));
    }
  }

  lemma MidIsShaped(c: seq<nat>, ids: seq<Id>, n: nat, a: seq<Sample>, lo: nat)
    requires AllMid(c, ids, n, a, lo)
    ensures Shaped(n, a)
  {
  }

  /** A candidate that is not better than the least sample of a full list is covered by that sample. */
  lemma RejectedIsCovered(c: seq<nat>, ids: seq<Id>, n: nat, mx: nat, a: seq<Sample>, iMin: nat, pNew: Sample, i: nat)
    requires Wide(c, n) && Candidate(c, ids, n, pNew, i) && i < n - 1 && Shaped(n, a)
    requires MinOk(mx, a, iMin) && |a| == mx && !Better(pNew, a[iMin])
    ensures Covered(mx, a, iMin, pNew.anLt[i], Weight(pNew), i)
  {
    assert !Lighter(a[iMin], pNew);
  }

  /** Covering the group that ends with column i extends the claim from columns above i to i. */
  lemma CoverLower(c: seq<nat>, ids: seq<Id>, n: nat, mx: nat, a: seq<Sample>, iMin: nat, pNew: Sample, i: nat)
    requires Candidate(c, ids, n, pNew, i) && i < n - 1 && AllCovered(c, n, mx, a, iMin, i + 1)
    requires Covered(mx, a, iMin, pNew.anLt[i], Weight(pNew), i)
    ensures AllCovered(c, n, mx, a, iMin, i)
  {
    forall j: nat, t: nat | j < n - 1 && t < |c| && (End(c, j, t) < |c| || j >= i)
      ensures CoveredAt(c, mx, a, iMin, j, t)
    {
      if j == i && End(c, j, t) == |c| {
        LastGroup(c, i, t);
        LastGroup(c, i, RowOf(pNew));
        assert LessOk(c, pNew, i);
      }
    }
  }

  lemma InsertKeepsPushing(c: seq<nat>, ids: seq<Id>, n: nat, mx: nat, a: seq<Sample>, iMin: nat, pNew: Sample, i: nat,
                           b: seq<Sample>, iMin': nat)
    requires Wide(c, n) && Pushing(c, ids, n, mx, a, iMin, i + 1) && Candidate(c, ids, n, pNew, i) && i < n - 1
    requires |a| < mx || Better(pNew, a[iMin])
    requires Inserted(mx, a, iMin, pNew, i, b) && MinOk(mx, b, iMin') && AllReady(b)
    ensures Pushing(c, ids, n, mx, b, iMin', i)
  {
    hide Mid, AllBacked, AllCovered, Candidate, Ordered, Inserted, MinOk, Ready, Better;
    InsertKeepsCounts(c, ids, n, mx, a, iMin, pNew, i, b);
    InsertIsBacked(c, ids, n, mx, a, iMin, pNew, i, b);
    InsertKeepsAllCovered(c, ids, n, mx, a, iMin, pNew, i, b, iMin');
  }

  lemma InsertKeepsAllCovered(c: seq<nat>, ids: seq<Id>, n: nat, mx: nat, a: seq<Sample>, iMin: nat, pNew: Sample,
                              i: nat, b: seq<Sample>, iMin': nat)
    requires Wide(c, n) && AllMid(c, ids, n, a, i + 1) && Candidate(c, ids, n, pNew, i) && i < n - 1
    requires AllCovered(c, n, mx, a, iMin, i + 1) && MinOk(mx, a, iMin) && (|a| < mx || Better(pNew, a[iMin]))
    requires Inserted(mx, a, iMin, pNew, i, b) && MinOk(mx, b, iMin')
    ensures AllCovered(c, n, mx, b, iMin', i)
  {
    hide Top, Chosen, MidAt, LessOk, IsMin, Inserted, First, End, Size;
    MidIsShaped(c, ids, n, a, i + 1);
    forall m | 0 <= m < |a| && Shares(a[m], i)
      ensures a[m].anLt[i] == pNew.anLt[i] && (a[m].isPSample || !Lighter(pNew, a[m]))
    {
      WhoShares(c, ids, n, a[m], pNew, i);
      if !a[m].isPSample { CandidateIsBetter(c, ids, n, a[m], pNew, i); }
    }
    forall j: nat, t: nat | j < n - 1 && t < |c| && (End(c, j, t) < |c| || j >= i + 1)
      ensures CoveredAt(c, mx, b, iMin', j, t)
    {
      assert CoveredAt(c, mx, a, iMin, j, t);
      InsertKeepsCover(n, mx, a, iMin, pNew, i, b, iMin', First(c, j, t), Size(c, j, t), j);
    }
    InsertRepresents(n, mx, a, iMin, pNew, i, b);
    CoverLower(c, ids, n, mx, b, iMin', pNew, i);
  }

  // ---------------------------------------------------------------------------------------------
  // Completing the counts and starting the next row

  /** The same sample as far as its row, its reason and its weight go. */
  ghost predicate SameStanding(s: Sample, s': Sample) {
    s'.anLt == s.anLt && s'.isPSample == s.isPSample && s'.iCol == s.iCol && (s.isPSample || Weight(s') == Weight(s))
  }

  ghost predicate AllSameStanding(a: seq<Sample>, b: seq<Sample>) {
    |a| == |b| && forall m :: 0 <= m < |a| ==> SameStanding(a[m], b[m])
  }

  lemma {:induction false} StandingKeepsPeriodics(a: seq<Sample>, b: seq<Sample>)
    requires AllSameStanding(a, b)
    ensures Periodics(b) == Periodics(a)
  {
    if a != [] {
      assert SameStanding(a[0], b[0]);
      forall m | 0 <= m < |a| - 1
        ensures SameStanding(a[1..][m], b[1..][m])
      {
        assert SameStanding(a[m + 1], b[m + 1]);
      }
      StandingKeepsPeriodics(a[1..], b[1..]);
    }
  }

  lemma StandingKeepsCover(c: seq<nat>, n: nat, mx: nat, a: seq<Sample>, b: seq<Sample>, iMin: nat, lo: nat)
    requires AllSameStanding(a, b) && MinOk(mx, a, iMin) && AllCovered(c, n, mx, a, iMin, lo)
    ensures AllCovered(c, n, mx, b, iMin, lo)
  {
    if |a| == mx { assert SameStanding(a[iMin], b[iMin]); }
    forall j: nat, t: nat | j < n - 1 && t < |c| && (End(c, j, t) < |c| || j >= lo)
      ensures CoveredAt(c, mx, b, iMin, j, t)
    {
      assert CoveredAt(c, mx, a, iMin, j, t);
      if Represented(a, First(c, j, t), Size(c, j, t), j) {
        var m :| 0 <= m < |a| && Stands(a[m], First(c, j, t), Size(c, j, t), j);
        assert SameStanding(a[m], b[m]);
        assert Stands(b[m], First(c, j, t), Size(c, j, t), j);
      }
    }
  }

  /** s' is s with the zero counts from column x on replaced by the current ones. */
  ghost predicate FilledFrom(s: Sample, s': Sample, cur: Sample, x: nat) {
    && |s.anEq| == |s'.anEq| == |cur.anEq| && s' == s.(anEq := s'.anEq)
    && forall j :: 0 <= j < |s.anEq| ==> s'.anEq[j] == if j >= x && s.anEq[j] == 0 then cur.anEq[j] else s.anEq[j]
  }

  /** The counts that decide preference are not among those filled in. */
  lemma FilledSameFrom(i: nat, x: Sample, x': Sample, y: Sample, y': Sample, cur: Sample, lo: nat)
    requires FilledFrom(x, x', cur, lo) && FilledFrom(y, y', cur, lo)
    requires forall j :: i <= j < |x.anEq| ==> x.anEq[j] > 0 && j < |y.anEq| && y.anEq[j] > 0
    ensures |x.anEq| == |y.anEq| ==> BetterFrom(i, x', y') == BetterFrom(i, x, y)
    decreases |x.anEq| - i
  {
    if i < |x.anEq| { FilledSameFrom(i + 1, x, x', y, y', cur, lo); }
  }

  lemma FilledKeepsMin(n: nat, mx: nat, a: seq<Sample>, b: seq<Sample>, iMin: nat, cur: Sample, lo: nat)
    requires Shaped(n, a) && AllReady(a) && MinOk(mx, a, iMin)
    requires |a| == |b| && forall m :: 0 <= m < |a| ==> FilledFrom(a[m], b[m], cur, lo)
    ensures MinOk(mx, b, iMin)
  {
    if |a| == mx {
      assert ShapedSample(n, a[iMin]) && FilledFrom(a[iMin], b[iMin], cur, lo);
      forall m | 0 <= m < |b| && !b[m].isPSample ensures NoWorse(b, m, iMin) {
        assert ShapedSample(n, a[m]) && FilledFrom(a[m], b[m], cur, lo) && NoWorse(a, m, iMin);
        assert Ready(a[m]) && Ready(a[iMin]);
        if a[m].iCol == a[iMin].iCol {
          FilledSameFrom(a[m].iCol + 1, a[m], b[m], a[iMin], b[iMin], cur, lo);
          FilledSameFrom(a[m].iCol + 1, a[iMin], b[iMin], a[m], b[m], cur, lo);
        }
      }
    }
  }

  lemma FillSettles(c: seq<nat>, ids: seq<Id>, n: nat, s: Sample, s': Sample, cur: Sample, x: nat)
    requires Wide(c, n) && x < n && Mid(c, ids, n, s, x) && Current(c, ids, n, cur) && FilledFrom(s, s', cur, x)
    ensures Settled(c, ids, n, s', x) && SameStanding(s, s')
  {
    var t := RowOf(s);
    forall j | 0 <= j < n ensures LessOk(c, s', j) && SettledAt(c, s', j, x) {
      assert LessOk(c, s, j) && LessOk(c, cur, j) && MidAt(c, s, j, x);
      LastGroup(c, j, t);
      if j == n - 1 { LastColumn(c, n, t); }
    }
  }

  /** The groups for all columns are single rows. */
  lemma LastColumn(c: seq<nat>, n: nat, t: nat)
    requires Wide(c, n) && t < |c|
    ensures First(c, n - 1, t) == t && End(c, n - 1, t) == t + 1
  {
  }

  /** Once row |c| is known to change column x first, the groups from column x on have ended. */
  lemma AppendSettles(c: seq<nat>, ids: seq<Id>, n: nat, s: Sample, x: nat, id: Id)
    requires Wide(c, n) && x < n && Settled(c, ids, n, s, x)
    ensures Settled(c + [x], ids + [id], n, s, n - 1)
  {
    var t, d, last: nat := RowOf(s), c + [x], n - 1;
    if !s.isPSample { AppendKeepsChosen(c, ids, n, s, x, id, last); }
    forall j | 0 <= j < n ensures LessOk(d, s, j) && SettledAt(d, s, j, last) {
      assert LessOk(c, s, j) && SettledAt(c, s, j, x);
      AppendRow(c, x, j, t);
    }
  }

  lemma AppendCovers(c: seq<nat>, n: nat, mx: nat, a: seq<Sample>, iMin: nat, x: nat)
    requires Wide(c, n) && x < n && AllCovered(c, n, mx, a, iMin, x)
    ensures AllCovered(c + [x], n, mx, a, iMin, n - 1)
  {
    var d := c + [x];
    forall j: nat, t: nat | j < n - 1 && t < |d| && (End(d, j, t) < |d| || j >= n - 1)
      ensures CoveredAt(d, mx, a, iMin, j, t)
    {
      AppendRow(c, x, j, t);
      assert CoveredAt(c, mx, a, iMin, j, t);
    }
  }

  lemma AppendKeepsOf(c: seq<nat>, ids: seq<Id>, n: nat, s: Sample, x: nat, id: Id)
    requires Of(c, ids, n, s)
    ensures Of(c + [x], ids + [id], n, s)
  {
    forall j | 0 <= j < n ensures LessOk(c + [x], s, j) {
      assert LessOk(c, s, j);
      AppendRow(c, x, j, RowOf(s));
    }
  }

  /** The sample of the current row, with its incomplete counts cleared. */
  lemma CurrentSettles(c: seq<nat>, ids: seq<Id>, n: nat, s: Sample)
    requires Wide(c, n) && Current(c, ids, n, s) && s.isPSample
    ensures Settled(c, ids, n, Zeroed(s, n - 1), n - 1)
  {
    var last: nat := n - 1;
    var z := Zeroed(s, last);
    forall j | 0 <= j < n ensures LessOk(c, z, j) && SettledAt(c, z, j, last) {
      assert LessOk(c, s, j);
      if j == n - 1 { LastColumn(c, n, |c| - 1); }
    }
  }
}
