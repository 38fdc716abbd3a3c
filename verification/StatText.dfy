/**
  The texts in the sqlite_stat1 and sqlite_stat4 tables: how stat_get of sqlcipher/src/analyze.c writes
  lists of integers, and how decodeIntArray reads them back.
 */
module StatText {
  import opened Arith

  /** The range of tRowcnt, an unsigned 32-bit integer unless 64-bit statistics are asked for. */
  const LIMIT: nat := 0x1_0000_0000

  // ---------------------------------------------------------------------------------------------
  // Decimal numbers

  predicate IsDigit(ch: char) {
    '0' <= ch <= '9'
  }

  function DigitChar(d: nat): (ch: char)
    requires d < 10
    ensures IsDigit(ch) && DigitValue(ch) == d
  {
    (d + '0' as nat) as char
  }

  function DigitValue(ch: char): (d: nat)
    ensures d < 10
  {
    if IsDigit(ch) then ch as nat - '0' as nat else 0
  }

  predicate AllDigits(s: string) {
    forall i :: 0 <= i < |s| ==> IsDigit(s[i])
  }

  /** %llu */
  function Decimal(n: nat): (s: string)
    ensures |s| > 0 && AllDigits(s)
  {
    if n < 10 then [DigitChar(n)] else Decimal(n / 10) + [DigitChar(n % 10)]
  }

  function Value(s: string): nat
  {
    if s == "" then 0 else Value(s[..|s| - 1]) * 10 + DigitValue(s[|s| - 1])
  }

  lemma {:induction false} ValueOfDecimal(n: nat)
    ensures Value(Decimal(n)) == n
  {
    if n >= 10 {
      ValueOfDecimal(n / 10);
      var s := Decimal(n);
      assert s[..|s| - 1] == Decimal(n / 10);
    }
  }

  function Pow10(k: nat): (p: nat)
    ensures p > 0
  {
    if k == 0 then 1 else 10 * Pow10(k - 1)
  }

  lemma {:induction false} DecimalLength(n: nat, k: nat)
    requires k > 0 && n < Pow10(k)
    ensures |Decimal(n)| <= k
  {
    if n >= 10 {
      assert Pow10(1) == 10 * Pow10(0);
      DecimalLength(n / 10, k - 1);
    }
  }

  /** A 64-bit integer has at most twenty digits. */
  lemma U64Length(n: nat)
    requires n < 0x1_0000_0000_0000_0000
    ensures |Decimal(n)| <= 20
  {
    assert Pow10(5) == 100000;
    assert Pow10(10) == 100000 * Pow10(5);
    assert Pow10(15) == 100000 * Pow10(10);
    assert Pow10(20) == 100000 * Pow10(15);
    DecimalLength(n, 20);
  }

  // ---------------------------------------------------------------------------------------------
  // Lists

  /** The numbers of the list, separated by single spaces. */
  function Spaced(list: seq<nat>): string {
    if list == [] then ""
    else if |list| == 1 then Decimal(list[0])
    else Spaced(list[..|list| - 1]) + " " + Decimal(list[|list| - 1])
  }

  /** For instance. */
  lemma SpacedInstance()
    ensures Spaced([7, 0, 42]) == "7 0 42"
  {
    assert [7, 0, 42][..2] == [7, 0] && [7, 0][..1] == [7] && [7][..0] == [];
  }

  lemma SpacedGrows(list: seq<nat>, i: nat)
    requires 0 < i < |list|
    ensures Spaced(list[..i + 1]) == Spaced(list[..i]) + " " + Decimal(list[i])
  {
    assert list[..i + 1][..i] == list[..i];
  }

  lemma {:induction false} SpacedFront(list: seq<nat>)
    requires |list| > 1
    ensures Spaced(list) == Decimal(list[0]) + " " + Spaced(list[1..])
  {
    var front, last := list[..|list| - 1], list[|list| - 1];
    if |list| == 2 {
      assert front == [list[0]] && list[1..] == [last];
    } else {
      SpacedFront(front);
      assert front[1..] == list[1..][..|list| - 2];
      assert Spaced(list) == Decimal(list[0]) + " " + (Spaced(front[1..]) + " " + Decimal(last));
    }
  }

  /** The text with its terminator fits a buffer of 25 bytes for every number. */
  lemma {:induction false} SpacedFits(list: seq<nat>)
    requires forall i :: 0 <= i < |list| ==> list[i] < 0x1_0000_0000_0000_0000
    ensures |list| > 0 ==> |Spaced(list)| + 1 <= |list| * 25
  {
    if |list| > 0 {
      U64Length(list[|list| - 1]);
      SpacedFits(list[..|list| - 1]);
    }
  }

  // ---------------------------------------------------------------------------------------------
  // Writing

  /** The average number of rows with equal values, for nRow rows and d distinct values. */
  function Estimate(nRow: nat, d: nat): nat
    requires d > 0
  {
    Quot(d, nRow + d - 1)
  }

  /** The numbers of the "stat" column: the number of rows, then one estimate for every key column. */
  function Estimates(nRow: nat, anDLt: seq<nat>): (list: seq<nat>)
    ensures |list| == |anDLt| + 1 && list[0] == nRow
    ensures forall i :: 0 <= i < |anDLt| ==> list[i + 1] == Estimate(nRow, anDLt[i] + 1)
  {
    [nRow] + seq(|anDLt|, i requires 0 <= i < |anDLt| => Estimate(nRow, anDLt[i] + 1))
  }

  /** The STAT_GET_STAT1 branch of statGet. */
  method Stat1(nRow: nat, anDLt: seq<nat>, nKeyCol: nat) returns (zRet: string)
    requires nKeyCol <= |anDLt|
    ensures zRet == Spaced(Estimates(nRow, anDLt[..nKeyCol]))
  {
    ghost var list := Estimates(nRow, anDLt[..nKeyCol]);
    zRet := Decimal(nRow);
    assert list[..1] == [nRow];
    for i := 0 to nKeyCol
      invariant zRet == Spaced(list[..i + 1])
    {
      SpacedGrows(list, i + 1);
      var nDistinct := anDLt[i] + 1;
      var iVal, rest := Divide(nRow + nDistinct - 1, nDistinct);
      zRet := zRet + " " + Decimal(iVal);
    }
    assert list[..nKeyCol + 1] == list;
  }

  /** The other branches of statGet: every number is followed by a space, and the last space is dropped. */
  method Stat4(aCnt: seq<nat>) returns (zRet: string)
    requires |aCnt| > 0
    ensures zRet == Spaced(aCnt)
  {
    zRet := "";
    for i := 0 to |aCnt|
      invariant zRet == if i == 0 then "" else Spaced(aCnt[..i]) + " "
    {
      if i > 0 { SpacedGrows(aCnt, i); }
      zRet := zRet + Decimal(aCnt[i]) + " ";
    }
    assert aCnt[..|aCnt|] == aCnt;
    zRet := zRet[..|zRet| - 1];
  }

  /** Each estimate is the quotient rounded up. */
  lemma EstimateIsCeiling(nRow: nat, d: nat)
    requires d > 0
    ensures (Estimate(nRow, d) - 1) * d < nRow <= Estimate(nRow, d) * d
    ensures nRow > 0 ==> Estimate(nRow, d) >= 1
  {
    QuotTimes(d, nRow + d - 1);
    var q := Estimate(nRow, d);
    assert (q - 1) * d == q * d - d;
    assert q == 0 ==> q * d == 0;
  }

  /** More distinct values make a smaller estimate. */
  lemma EstimateFalls(nRow: nat, d: nat, e: nat)
    requires 0 < d <= e
    ensures Estimate(nRow, e) <= Estimate(nRow, d)
  {
    EstimateIsCeiling(nRow, d);
    EstimateIsCeiling(nRow, e);
    var p, q := Estimate(nRow, d), Estimate(nRow, e);
    if q > p {
      Scale(d, e, p);
      Scale(p, q - 1, e);
      assert false;
    }
  }

  // ---------------------------------------------------------------------------------------------
  // Reading

  /** The value of a digit string in tRowcnt arithmetic. */
  function Wrapped(s: string): nat
  {
    if s == "" then 0 else (Wrapped(s[..|s| - 1]) * 10 + DigitValue(s[|s| - 1])) % LIMIT
  }

  lemma {:induction false} WrappedIsValue(s: string)
    requires Value(s) < LIMIT
    ensures Wrapped(s) == Value(s)
  {
    if s != "" { WrappedIsValue(s[..|s| - 1]); }
  }

  /** Where the number ends that starts at z[at]. */
  function NumberEnd(z: string, at: nat): (e: nat)
    requires at <= |z|
    ensures at <= e <= |z|
    decreases |z| - at
  {
    if at == |z| || !IsDigit(z[at]) then at else NumberEnd(z, at + 1)
  }

  function NumberAt(z: string, at: nat): nat
    requires at <= |z|
  {
    Wrapped(z[at..NumberEnd(z, at)])
  }

  /** Where the next number starts. */
  function ItemEnd(z: string, at: nat): (e: nat)
    requires at <= |z|
    ensures at <= e <= |z|
  {
    var e := NumberEnd(z, at);
    if e < |z| && z[e] == ' ' then e + 1 else e
  }

  /** The integers that decodeIntArray stores from z[at..], at most nOut of them. */
  function Decoded(z: string, at: nat, nOut: nat): seq<nat>
    requires at <= |z|
    decreases nOut
  {
    if at == |z| || nOut == 0 then [] else [NumberAt(z, at)] + Decoded(z, ItemEnd(z, at), nOut - 1)
  }

  lemma {:induction false} NumberEndIs(z: string, at: nat, e: nat)
    requires at <= e <= |z| && (forall i :: at <= i < e ==> IsDigit(z[i])) && (e < |z| ==> !IsDigit(z[e]))
    ensures NumberEnd(z, at) == e
    decreases e - at
  {
    if at < e { NumberEndIs(z, at + 1, e); }
  }

  /** The while loop over digits: it reads the number that starts at z[at]. */
  method ReadNumber(z: string, at: nat) returns (v: nat, e: nat)
    requires at <= |z|
    ensures e == NumberEnd(z, at) && v == NumberAt(z, at)
  {
    v := 0;
    e := at;
    while e < |z| && IsDigit(z[e])
      invariant at <= e <= |z| && v == Wrapped(z[at..e])
      invariant forall i :: at <= i < e ==> IsDigit(z[i])
    {
      v := (v * 10 + DigitValue(z[e])) % LIMIT;
      e := e + 1;
      assert z[at..e][..e - at - 1] == z[at..e - 1];
    }
    NumberEndIs(z, at, e);
  }

  lemma Assoc<T>(a: seq<T>, b: seq<T>, c: seq<T>, d: seq<T>)
    ensures a + b + c + d == a + b + (c + d) == a + (b + c + d)
  {
  }

  lemma DecodedUnfold(z: string, at: nat, n: nat, v: nat, e: nat)
    requires at < |z| && n > 0 && NumberAt(z, at) == v && ItemEnd(z, at) == e
    ensures Decoded(z, at, n) == [v] + Decoded(z, e, n - 1)
  {
  }

  /** With `done` read from z[..at], n more integers may follow. */
  ghost predicate SoFar(z: string, nOut: nat, done: seq<nat>, at: nat, n: nat) {
    at <= |z| && done + Decoded(z, at, n) == Decoded(z, 0, nOut)
  }

  lemma SoFarStep(z: string, nOut: nat, done: seq<nat>, at: nat, n: nat)
    requires SoFar(z, nOut, done, at, n) && at < |z| && n > 0
    ensures SoFar(z, nOut, done + [NumberAt(z, at)], ItemEnd(z, at), n - 1)
  {
    DecodedUnfold(z, at, n, NumberAt(z, at), ItemEnd(z, at));
    Assoc(done, [], [NumberAt(z, at)], Decoded(z, ItemEnd(z, at), n - 1));
  }

  lemma SoFarEnds(z: string, nOut: nat, done: seq<nat>, at: nat, n: nat)
    requires SoFar(z, nOut, done, at, n) && (at == |z| || n == 0)
    ensures done == Decoded(z, 0, nOut)
  {
  }

  /** decodeIntArray with aOut */
  method DecodeIntArray(zIntArray: string, nOut: nat) returns (aOut: seq<nat>)
    ensures aOut == Decoded(zIntArray, 0, nOut)
  {
    aOut := [];
    var z: nat, i: nat := 0, 0;
    while z < |zIntArray| && i < nOut
      invariant z <= |zIntArray| && i <= nOut
      invariant SoFar(zIntArray, nOut, aOut, z, nOut - i)
    {
      SoFarStep(zIntArray, nOut, aOut, z, nOut - i);
      var v, e := ReadNumber(zIntArray, z);
      aOut, z, i := aOut + [v], e, i + 1;
      if z < |zIntArray| && zIntArray[z] == ' ' { z := z + 1; }
    }
    SoFarEnds(zIntArray, nOut, aOut, z, nOut - i);
  }

  /** What is read at the place of a written number. */
  lemma ReadsDecimal(pre: string, n: nat, post: string)
    requires n < LIMIT && (post != "" ==> post[0] == ' ')
    ensures var z := pre + Decimal(n) + post;
            && NumberAt(z, |pre|) == n
            && ItemEnd(z, |pre|) == |pre + Decimal(n)| + (if post == "" then 0 else 1)
  {
    var d := Decimal(n);
    var z := pre + d + post;
    var e := |pre + d|;
    assert z[|pre|..e] == d;
    forall i | |pre| <= i < e ensures IsDigit(z[i]) { assert z[i] == d[i - |pre|]; }
    NumberEndIs(z, |pre|, e);
    ValueOfDecimal(n);
    WrappedIsValue(d);
  }

  /** The first number of a text, and where the others start. */
  lemma ReadsFirst(pre: string, list: seq<nat>)
    requires |list| > 1 && list[0] < LIMIT
    ensures var pre' := pre + Decimal(list[0]) + " ";
            && pre + Spaced(list) == pre' + Spaced(list[1..])
            && NumberAt(pre + Spaced(list), |pre|) == list[0] && ItemEnd(pre + Spaced(list), |pre|) == |pre'|
  {
    var d, rest := Decimal(list[0]), Spaced(list[1..]);
    SpacedFront(list);
    ReadsDecimal(pre, list[0], " " + rest);
    Assoc(pre, d, " ", rest);
  }

  /** Reading back a written list gives the list. */
  lemma {:induction false} DecodeSpaced(pre: string, list: seq<nat>)
    requires forall i :: 0 <= i < |list| ==> list[i] < LIMIT
    ensures Decoded(pre + Spaced(list), |pre|, |list|) == list
    decreases |list|
  {
    var z := pre + Spaced(list);
    if |list| == 1 {
      ReadsDecimal(pre, list[0], "");
      assert pre + Decimal(list[0]) + "" == z;
      DecodedUnfold(z, |pre|, 1, list[0], |z|);
    } else if |list| > 1 {
      var pre' := pre + Decimal(list[0]) + " ";
      ReadsFirst(pre, list);
      DecodeSpaced(pre', list[1..]);
      DecodedUnfold(z, |pre|, |list|, list[0], |pre'|);
      assert list == [list[0]] + list[1..];
    }
  }
}
