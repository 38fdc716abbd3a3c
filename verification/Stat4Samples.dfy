/**
  The sample list of the STAT4 accumulator of sqlcipher/src/analyze.c: which sample is preferred, how a
  candidate enters the list, and what that keeps.
 */
module Stat4Samples {

  /** Stat4Sample.  The counts have one entry for every column of the index. */
  datatype Sample = Sample(anEq: seq<nat>, anLt: seq<nat>, anDLt: seq<nat>, rowid: int,
                           isPSample: bool, iCol: nat, iHash: nat)

  // ---------------------------------------------------------------------------------------------
  // Preference

  /** How often the prefix occurs for which the sample was included. */
  function Weight(s: Sample): nat {
    if s.iCol < |s.anEq| then s.anEq[s.iCol] else 0
  }

  /** x was included for a rarer prefix than y, or for an equally frequent and longer one. */
  predicate Lighter(x: Sample, y: Sample) {
    Weight(x) < Weight(y) || (Weight(x) == Weight(y) && x.iCol > y.iCol)
  }

  /** The first difference from column i on decides, then the hash. */
  predicate BetterFrom(i: nat, x: Sample, y: Sample)
    requires |x.anEq| == |y.anEq|
    decreases |x.anEq| - i
  {
    if i >= |x.anEq| then x.iHash > y.iHash
    else if x.anEq[i] != y.anEq[i] then x.anEq[i] > y.anEq[i]
    else BetterFrom(i + 1, x, y)
  }

  /** x is greater where the two lists first differ after place i. */
  ghost predicate Greater(x: seq<nat>, y: seq<nat>, i: nat) {
    exists k: nat :: i < k && GreaterAt(x, y, i, k)
  }

  ghost predicate GreaterAt(x: seq<nat>, y: seq<nat>, i: nat, k: nat) {
    k < |x| && k < |y| && x[k] > y[k] && forall j :: i < j < k ==> x[j] == y[j]
  }

  lemma GreaterIsStrict(x: seq<nat>, y: seq<nat>, i: nat)
    ensures !(Greater(x, y, i) && Greater(y, x, i)) && !Greater(x, x, i)
  {
    if k: nat :| i < k && GreaterAt(x, y, i, k) {
      forall m: nat | i < m ensures !GreaterAt(y, x, i, m) {}
    }
  }

  /** Lists neither of which is greater are the same after place i. */
  lemma {:induction false} NoneGreater(x: seq<nat>, y: seq<nat>, i: nat, k: nat)
    requires |x| == |y| >= k && !Greater(x, y, i) && !Greater(y, x, i)
    ensures forall j :: i < j < k ==> x[j] == y[j]
  {
    if k > i + 1 {
      NoneGreater(x, y, i, k - 1);
      assert !GreaterAt(x, y, i, k - 1) && !GreaterAt(y, x, i, k - 1);
    }
  }

  lemma GreaterOn(x: seq<nat>, y: seq<nat>, z: seq<nat>, i: nat)
    requires |x| == |y| == |z| && Greater(x, y, i) && !Greater(z, y, i)
    ensures Greater(x, z, i)
  {
    var k: nat :| i < k && GreaterAt(x, y, i, k);
    if m: nat :| i < m && GreaterAt(y, z, i, m) {
      assert GreaterAt(x, z, i, if k < m then k else m);
    } else {
      NoneGreater(y, z, i, |y|);
      assert GreaterAt(x, z, i, k);
    }
  }

  lemma GreaterFrom(x: seq<nat>, y: seq<nat>, x': seq<nat>, y': seq<nat>, i: nat)
    requires |x| == |y| == |x'| == |y'| && forall j :: i < j < |x| ==> x[j] == x'[j] && y[j] == y'[j]
    ensures Greater(x, y, i) <==> Greater(x', y', i)
  {
    if k: nat :| i < k && GreaterAt(x, y, i, k) { assert GreaterAt(x', y', i, k); }
    if k: nat :| i < k && GreaterAt(x', y', i, k) { assert GreaterAt(x, y, i, k); }
  }

  /** The counts of a sample and its hash. */
  function Numbers(s: Sample): (r: seq<nat>)
    ensures |r| == |s.anEq| + 1
  {
    s.anEq + [s.iHash]
  }

  lemma {:induction false} BetterFromIsGreater(x: Sample, y: Sample, i: nat, k: nat)
    requires |x.anEq| == |y.anEq| && i < k <= |x.anEq| && forall j :: i < j < k ==> x.anEq[j] == y.anEq[j]
    ensures BetterFrom(k, x, y) <==> Greater(Numbers(x), Numbers(y), i)
    decreases |x.anEq| - k
  {
    var a, b := Numbers(x), Numbers(y);
    if a[k] > b[k] {
      assert GreaterAt(a, b, i, k);
    } else if a[k] < b[k] || k == |x.anEq| {
      forall m: nat | i < m ensures !GreaterAt(a, b, i, m) {}
    } else {
      BetterFromIsGreater(x, y, i, k + 1);
    }
  }

  predicate Better(x: Sample, y: Sample)
    requires |x.anEq| == |y.anEq|
  {
    Lighter(y, x) || (!Lighter(x, y) && BetterFrom(x.iCol + 1, x, y))
  }

  /** Preference is a strict order whose ties are interchangeable. */
  lemma BetterOrder(x: Sample, y: Sample, z: Sample)
    requires |x.anEq| == |y.anEq| == |z.anEq|
    ensures !Better(x, x)
    ensures Better(x, y) && Better(y, z) ==> Better(x, z)
    ensures Better(x, z) ==> Better(x, y) || Better(y, z)
  {
    BetterFromOrder(x.iCol + 1, x, y, z);
  }

  lemma {:induction false} BetterFromOrder(i: nat, x: Sample, y: Sample, z: Sample)
    requires |x.anEq| == |y.anEq| == |z.anEq|
    ensures !BetterFrom(i, x, x)
    ensures BetterFrom(i, x, y) && BetterFrom(i, y, z) ==> BetterFrom(i, x, z)
    ensures BetterFrom(i, x, z) ==> BetterFrom(i, x, y) || BetterFrom(i, y, z)
    decreases |x.anEq| - i
  {
    if i < |x.anEq| { BetterFromOrder(i + 1, x, y, z); }
  }

  /** What sampleIsBetterPost takes for granted: the counts that decide a tie have been filled in. */
  predicate Ready(s: Sample) {
    s.isPSample || forall j :: s.iCol <= j < |s.anEq| ==> s.anEq[j] > 0
  }

  ghost predicate AllReady(a: seq<Sample>) {
    forall m :: 0 <= m < |a| ==> Ready(a[m])
  }

  /** sampleIsBetterPost */
  method SampleIsBetterPost(pNew: Sample, pOld: Sample) returns (r: bool)
    requires |pNew.anEq| == |pOld.anEq| && pNew.iCol == pOld.iCol
    ensures r == BetterFrom(pNew.iCol + 1, pNew, pOld)
  {
    var i := pNew.iCol + 1;
    while i < |pNew.anEq|
      invariant BetterFrom(i, pNew, pOld) == BetterFrom(pNew.iCol + 1, pNew, pOld)
    {
      if pNew.anEq[i] > pOld.anEq[i] { return true; }
      if pNew.anEq[i] < pOld.anEq[i] { return false; }
      i := i + 1;
    }
    return pNew.iHash > pOld.iHash;
  }

  /** sampleIsBetter */
  method SampleIsBetter(pNew: Sample, pOld: Sample) returns (r: bool)
    requires pNew.iCol < |pNew.anEq| == |pOld.anEq| && pOld.iCol < |pOld.anEq|
    requires !pNew.isPSample && !pOld.isPSample && Ready(pNew) && Ready(pOld)
    ensures r == Better(pNew, pOld)
  {
    var nEqNew := pNew.anEq[pNew.iCol];
    var nEqOld := pOld.anEq[pOld.iCol];
    if nEqNew > nEqOld { return true; }
    if nEqNew == nEqOld {
      if pNew.iCol < pOld.iCol { return true; }
      if pNew.iCol != pOld.iCol { return false; }
      r := SampleIsBetterPost(pNew, pOld);
      return r;
    }
    return false;
  }

  // ---------------------------------------------------------------------------------------------
  // The list

  /** All samples have counts for n columns, and a non-periodic one was included for a column but the last. */
  ghost predicate Shaped(n: nat, a: seq<Sample>) {
    forall m :: 0 <= m < |a| ==> ShapedSample(n, a[m])
  }

  ghost predicate ShapedSample(n: nat, s: Sample) {
    && |s.anEq| == |s.anLt| == |s.anDLt| == n > 0
    && (!s.isPSample ==> s.iCol < n - 1)
  }

  /** The number of periodic samples. */
  function Periodics(a: seq<Sample>): (k: nat)
    ensures k <= |a|
  {
    if a == [] then 0 else (if a[0].isPSample then 1 else 0) + Periodics(a[1..])
  }

  lemma {:induction false} PeriodicsOfConcat(a: seq<Sample>, b: seq<Sample>)
    ensures Periodics(a + b) == Periodics(a) + Periodics(b)
  {
    if a == [] {
      assert a + b == b;
    } else {
      PeriodicsOfConcat(a[1..], b);
      assert (a + b)[1..] == a[1..] + b;
    }
  }

  /** A list of periodic samples alone. */
  lemma {:induction false} AllPeriodic(a: seq<Sample>)
    requires forall m :: 0 <= m < |a| ==> a[m].isPSample
    ensures Periodics(a) == |a|
  {
    if a != [] { AllPeriodic(a[1..]); }
  }

  /** When the list is full, iMin is the place of the first least desirable sample. */
  ghost predicate MinOk(mx: nat, a: seq<Sample>, iMin: nat) {
    |a| <= mx && (|a| == mx ==> IsMin(a, iMin))
  }

  /** Every other non-periodic sample is better, or as good and comes later. */
  ghost predicate IsMin(a: seq<Sample>, iMin: nat) {
    iMin < |a| && !a[iMin].isPSample && forall m :: 0 <= m < |a| && !a[m].isPSample ==> NoWorse(a, m, iMin)
  }

  ghost predicate NoWorse(a: seq<Sample>, m: nat, k: nat)
    requires m < |a| && k < |a|
  {
    |a[m].anEq| == |a[k].anEq| && if m < k then Better(a[m], a[k]) else !Better(a[k], a[m])
  }

  /** find_new_min of sampleInsert */
  method FindMin(n: nat, a: seq<Sample>) returns (iMin: nat)
    requires Shaped(n, a) && AllReady(a) && Periodics(a) < |a|
    ensures IsMin(a, iMin)
  {
    hide Better, Ready, Lighter;
    var min := -1;
    for i := 0 to |a|
      invariant min == -1 ==> forall m :: 0 <= m < i ==> a[m].isPSample
      invariant min != -1 ==> 0 <= min < i && !a[min].isPSample
      invariant min != -1 ==> forall m :: 0 <= m < i && !a[m].isPSample ==> NoWorse(a, m, min)
    {
      if a[i].isPSample { continue; }
      assert ShapedSample(n, a[i]);
      var worse := min < 0;
      if !worse {
        assert ShapedSample(n, a[min]);
        worse := SampleIsBetter(a[min], a[i]);
        if worse { WorseIsMin(n, a, min, i); }
      }
      BetterOrder(a[i], a[i], a[i]);
      if worse { min := i; }
    }
    if min == -1 { AllPeriodic(a); }
    iMin := min;
  }

  lemma WorseIsMin(n: nat, a: seq<Sample>, k: nat, i: nat)
    requires Shaped(n, a) && k < i < |a| && Better(a[k], a[i])
    requires forall m :: 0 <= m < i && !a[m].isPSample ==> NoWorse(a, m, k)
    ensures forall m :: 0 <= m < i && !a[m].isPSample ==> NoWorse(a, m, i)
  {
    forall m | 0 <= m < i && !a[m].isPSample ensures NoWorse(a, m, i) {
      assert ShapedSample(n, a[m]) && ShapedSample(n, a[i]) && NoWorse(a, m, k);
      BetterOrder(a[m], a[k], a[i]);
      BetterOrder(a[k], a[m], a[i]);
    }
  }

  // ---------------------------------------------------------------------------------------------
  // Inserting a candidate

  /** A sample whose count for column i is not complete: it has the prefix that is ending. */
  predicate Shares(s: Sample, i: nat) {
    i < |s.anEq| && s.anEq[i] == 0
  }

  ghost predicate SomeShares(a: seq<Sample>, i: nat) {
    exists m :: 0 <= m < |a| && Shares(a[m], i)
  }

  ghost predicate SomePeriodicShares(a: seq<Sample>, i: nat) {
    exists m :: 0 <= m < |a| && Shares(a[m], i) && a[m].isPSample
  }

  /** u is the last place of a best sample with that prefix. */
  ghost predicate BestShares(a: seq<Sample>, i: nat, u: nat) {
    u < |a| && Shares(a[u], i) && forall m :: 0 <= m < |a| && Shares(a[m], i) ==> NoBetter(a, m, u)
  }

  ghost predicate NoBetter(a: seq<Sample>, m: nat, u: nat)
    requires m < |a| && u < |a|
  {
    |a[m].anEq| == |a[u].anEq| && if m > u then Better(a[u], a[m]) else !Better(a[m], a[u])
  }

  /** The first part of sampleInsert: u < 0 if no sample has the prefix that ends in column i. */
  method FindUpgrade(n: nat, a: seq<Sample>, i: nat) returns (blocked: bool, u: int)
    requires Shaped(n, a) && AllReady(a) && i < n
    ensures blocked == SomePeriodicShares(a, i)
    ensures !blocked ==> (u < 0 <==> !SomeShares(a, i)) && (u >= 0 ==> BestShares(a, i, u))
  {
    hide Better, Ready, Lighter;
    u := -1;
    blocked := false;
    var k := |a|;
    while k > 0
      invariant 0 <= k <= |a|
      invariant forall m :: k <= m < |a| && Shares(a[m], i) ==> !a[m].isPSample
      invariant u < 0 ==> forall m :: k <= m < |a| ==> !Shares(a[m], i)
      invariant u >= 0 ==> k <= u < |a| && Shares(a[u], i)
      invariant u >= 0 ==> forall m :: k <= m < |a| && Shares(a[m], i) ==> NoBetter(a, m, u)
    {
      k := k - 1;
      assert ShapedSample(n, a[k]);
      if a[k].anEq[i] == 0 {
        assert Shares(a[k], i);
        if a[k].isPSample { return true, u; }
        var better := u < 0;
        if !better {
          assert ShapedSample(n, a[u]);
          better := SampleIsBetter(a[k], a[u]);
          if better { BetterIsBest(n, a, i, k, u); }
        }
        BetterOrder(a[k], a[k], a[k]);
        if better { u := k; }
      }
    }
  }

  lemma BetterIsBest(n: nat, a: seq<Sample>, i: nat, k: nat, u: nat)
    requires Shaped(n, a) && k < u < |a| && Better(a[k], a[u])
    requires forall m :: k < m < |a| && Shares(a[m], i) ==> NoBetter(a, m, u)
    ensures forall m :: k < m < |a| && Shares(a[m], i) ==> NoBetter(a, m, k)
  {
    forall m | k < m < |a| && Shares(a[m], i) ensures NoBetter(a, m, k) {
      assert ShapedSample(n, a[m]) && ShapedSample(n, a[k]) && NoBetter(a, m, u);
      BetterOrder(a[k], a[u], a[m]);
      BetterOrder(a[k], a[m], a[u]);
    }
  }

  /** The list without sample iMin, if it is full. */
  function Room(mx: nat, a: seq<Sample>, iMin: nat): (r: seq<Sample>)
    requires |a| <= mx && (|a| == mx ==> iMin < |a|)
  {
    if |a| < mx then a else a[..iMin] + a[iMin + 1..]
  }

  /** The candidate with its first z counts cleared. */
  function Zeroed(s: Sample, z: nat): (r: Sample)
    requires z <= |s.anEq|
    ensures |r.anEq| == |s.anEq|
    ensures forall j :: 0 <= j < |s.anEq| ==> r.anEq[j] == if j < z then 0 else s.anEq[j]
  {
    s.(anEq := seq(z, _ => 0) + s.anEq[z..])
  }

  function Upgraded(s: Sample, i: nat, v: nat): Sample
    requires i < |s.anEq|
  {
    s.(iCol := i, anEq := s.anEq[i := v])
  }

  /** The sample that an insertion would upgrade is ready afterwards. */
  ghost predicate UpgradesReady(a: seq<Sample>, pNew: Sample) {
    pNew.isPSample || SomePeriodicShares(a, pNew.iCol) ||
    forall u: nat :: BestShares(a, pNew.iCol, u) ==> Ready(Upgraded(a[u], pNew.iCol, Weight(pNew)))
  }

  /** What sampleInsert makes of the list. */
  ghost predicate Inserted(mx: nat, a: seq<Sample>, iMin: nat, pNew: Sample, z: nat, b: seq<Sample>) {
    && |a| <= mx && (|a| == mx ==> iMin < |a|) && z <= |pNew.anEq|
    && if pNew.isPSample || !SomeShares(a, pNew.iCol) then
         b == Room(mx, a, iMin) + [Zeroed(pNew, z)]
       else if SomePeriodicShares(a, pNew.iCol) then
         b == a
       else
         exists u: nat :: BestShares(a, pNew.iCol, u) && b == a[u := Upgraded(a[u], pNew.iCol, Weight(pNew))]
  }

  /** Evicting the non-periodic sample iMin keeps the number of periodic ones. */
  lemma RoomPeriodics(mx: nat, a: seq<Sample>, iMin: nat, s: Sample)
    requires MinOk(mx, a, iMin)
    ensures Periodics(Room(mx, a, iMin) + [s]) == Periodics(a) + (if s.isPSample then 1 else 0)
  {
    hide NoWorse;
    PeriodicsOfConcat(Room(mx, a, iMin), [s]);
    if |a| == mx {
      PeriodicsOfConcat(a[..iMin], a[iMin + 1..]);
      PeriodicsOfConcat(a[..iMin], a[iMin..]);
      assert a[..iMin] + a[iMin..] == a;
      assert a[iMin..][1..] == a[iMin + 1..];
    }
  }

  lemma UpgradePeriodics(a: seq<Sample>, u: nat, s: Sample)
    requires u < |a| && s.isPSample == a[u].isPSample
    ensures Periodics(a[u := s]) == Periodics(a)
  {
    PeriodicsOfConcat(a[..u], a[u..]);
    PeriodicsOfConcat(a[..u], [s] + a[u + 1..]);
    assert a[..u] + a[u..] == a;
    assert a[..u] + ([s] + a[u + 1..]) == a[u := s];
    assert a[u..][1..] == a[u + 1..] && ([s] + a[u + 1..])[1..] == a[u + 1..];
  }

  /** sampleInsert: b and iMin' are the new list and the new place of its least desirable sample. */
  method SampleInsert(n: nat, mx: nat, a: seq<Sample>, iMin: nat, pNew: Sample, z: nat)
    returns (b: seq<Sample>, iMin': nat)
    requires Shaped(n, a) && ShapedSample(n, pNew) && z <= n && (pNew.isPSample || z <= pNew.iCol)
    requires MinOk(mx, a, iMin) && Periodics(a) + (if pNew.isPSample then 1 else 0) < mx
    requires AllReady(a) && Ready(pNew) && UpgradesReady(a, pNew)
    ensures Inserted(mx, a, iMin, pNew, z, b)
    ensures Shaped(n, b) && AllReady(b) && MinOk(mx, b, iMin')
    ensures Periodics(b) == Periodics(a) + (if pNew.isPSample then 1 else 0)
    ensures |b| > 0
  {
    hide Lighter, Better, Periodics;
    iMin' := iMin;
    if !pNew.isPSample {
      var blocked, u := FindUpgrade(n, a, pNew.iCol);
      if blocked { return a, iMin; }
      if u >= 0 {
        assert ShapedSample(n, a[u]) && !a[u].isPSample;
        b := a[u := Upgraded(a[u], pNew.iCol, pNew.anEq[pNew.iCol])];
        UpgradePeriodics(a, u, b[u]);
        if |b| >= mx { iMin' := FindMin(n, b); }
        return;
      }
    }
    RoomPeriodics(mx, a, iMin, Zeroed(pNew, z));
    b := a;
    if |a| >= mx { b := a[..iMin] + a[iMin + 1..]; }
    b := b + [Zeroed(pNew, z)];
    assert Shaped(n, b);
    if |b| >= mx { iMin' := FindMin(n, b); }
  }

  // ---------------------------------------------------------------------------------------------
  // Frequent prefixes stay represented

  /** s would not be given up for a prefix of j + 1 columns that occurs `size` times. */
  ghost predicate Outweighs(s: Sample, size: nat, j: nat) {
    s.isPSample || Weight(s) > size || (Weight(s) == size && s.iCol <= j)
  }

  /** Some sample has the prefix of j + 1 columns that starts at row f. */
  ghost predicate Represented(a: seq<Sample>, f: nat, size: nat, j: nat) {
    exists m :: 0 <= m < |a| && Stands(a[m], f, size, j)
  }

  ghost predicate Stands(s: Sample, f: nat, size: nat, j: nat) {
    j < |s.anLt| && s.anLt[j] == f && Outweighs(s, size, j)
  }

  /** The prefix is represented, or the list is full of samples for prefixes at least as frequent. */
  ghost predicate Covered(mx: nat, a: seq<Sample>, iMin: nat, f: nat, size: nat, j: nat) {
    Represented(a, f, size, j) || (|a| == mx && iMin < |a| && Outweighs(a[iMin], size, j))
  }

  /** In a full list every sample outweighs a prefix that the least sample outweighs. */
  lemma MinDecides(mx: nat, a: seq<Sample>, iMin: nat, size: nat, j: nat, m: nat)
    requires MinOk(mx, a, iMin) && |a| == mx && Outweighs(a[iMin], size, j) && m < |a|
    ensures Outweighs(a[m], size, j)
  {
  }

  /** Inserting a candidate that is no worse than the least sample keeps every prefix covered. */
  lemma InsertKeepsCover(n: nat, mx: nat, a: seq<Sample>, iMin: nat, pNew: Sample, z: nat, b: seq<Sample>, iMin': nat,
                         f: nat, size: nat, j: nat)
    requires Inserted(mx, a, iMin, pNew, z, b) && Shaped(n, a) && MinOk(mx, a, iMin) && MinOk(mx, b, iMin')
    requires pNew.isPSample || (ShapedSample(n, pNew) && z <= pNew.iCol)
    requires |a| == mx ==> pNew.isPSample || !Lighter(pNew, a[iMin])
    requires forall m :: 0 <= m < |a| && Shares(a[m], pNew.iCol) ==>
      pNew.isPSample || a[m].isPSample || !Lighter(pNew, a[m])
    requires Covered(mx, a, iMin, f, size, j)
    ensures Covered(mx, b, iMin', f, size, j)
  {
    if pNew.isPSample || !SomeShares(a, pNew.iCol) {
      RoomKeepsCover(mx, a, iMin, Zeroed(pNew, z), iMin', f, size, j);
    } else if SomePeriodicShares(a, pNew.iCol) {
      if |a| == mx && Outweighs(a[iMin], size, j) { MinDecides(mx, a, iMin, size, j, iMin'); }
    } else {
      var u: nat :| BestShares(a, pNew.iCol, u) && b == a[u := Upgraded(a[u], pNew.iCol, Weight(pNew))];
      UpgradeKeepsCover(n, mx, a, iMin, u, b[u], iMin', f, size, j);
    }
  }

  lemma RoomKeepsCover(mx: nat, a: seq<Sample>, iMin: nat, s: Sample, iMin': nat, f: nat, size: nat, j: nat)
    requires MinOk(mx, a, iMin) && MinOk(mx, Room(mx, a, iMin) + [s], iMin')
    requires |a| == mx ==> s.isPSample || !Lighter(s, a[iMin])
    requires Covered(mx, a, iMin, f, size, j)
    ensures Covered(mx, Room(mx, a, iMin) + [s], iMin', f, size, j)
  {
    var b := Room(mx, a, iMin) + [s];
    if |a| == mx && Outweighs(a[iMin], size, j) {
      assert b[iMin'] == s || b[iMin'] in a;
    } else {
      var m :| 0 <= m < |a| && Stands(a[m], f, size, j);
      var m' := if |a| == mx && m > iMin then m - 1 else m;
      assert b[m'] == a[m];
    }
  }

  lemma UpgradeKeepsCover(n: nat, mx: nat, a: seq<Sample>, iMin: nat, u: nat, s: Sample, iMin': nat, f: nat, size: nat,
                          j: nat)
    requires MinOk(mx, a, iMin) && u < |a| && MinOk(mx, a[u := s], iMin')
    requires s.anLt == a[u].anLt && s.isPSample == a[u].isPSample && (s.isPSample || !Lighter(s, a[u]))
    requires Covered(mx, a, iMin, f, size, j)
    ensures Covered(mx, a[u := s], iMin', f, size, j)
  {
    var b := a[u := s];
    if |a| == mx && Outweighs(a[iMin], size, j) {
      MinDecides(mx, a, iMin, size, j, iMin');
    } else {
      var m :| 0 <= m < |a| && Stands(a[m], f, size, j);
      assert Stands(b[m], f, size, j);
    }
  }

  /** The inserted candidate's own prefix is represented afterwards. */
  lemma InsertRepresents(n: nat, mx: nat, a: seq<Sample>, iMin: nat, pNew: Sample, z: nat, b: seq<Sample>)
    requires Inserted(mx, a, iMin, pNew, z, b) && Shaped(n, a) && ShapedSample(n, pNew)
    requires !pNew.isPSample && z <= pNew.iCol
    requires forall m :: 0 <= m < |a| && Shares(a[m], pNew.iCol) ==> a[m].anLt[pNew.iCol] == pNew.anLt[pNew.iCol]
    ensures Represented(b, pNew.anLt[pNew.iCol], Weight(pNew), pNew.iCol)
  {
    if !SomeShares(a, pNew.iCol) {
      assert Stands(b[|b| - 1], pNew.anLt[pNew.iCol], Weight(pNew), pNew.iCol);
    } else if SomePeriodicShares(a, pNew.iCol) {
      var m :| 0 <= m < |a| && Shares(a[m], pNew.iCol) && a[m].isPSample;
      assert Stands(b[m], pNew.anLt[pNew.iCol], Weight(pNew), pNew.iCol);
    } else {
      var u: nat :| BestShares(a, pNew.iCol, u) && b == a[u := Upgraded(a[u], pNew.iCol, Weight(pNew))];
      assert Stands(b[u], pNew.anLt[pNew.iCol], Weight(pNew), pNew.iCol);
    }
  }
}
