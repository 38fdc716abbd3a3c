/**
  convertToWithoutRowidTable of sqlcipher/src/build.c: the column lists of the primary-key index and of
  the other unique indices of a table declared WITHOUT ROWID.  Before the conversion every index holds
  its key columns followed by the rowid, column -1.
 */
module WithoutRowid {
  import opened Common

  // ---------------------------------------------------------------------------------------------
  // What the column lists become

  /** The first occurrence of every element, in order. */
  function Distinct(s: seq<int>): (d: seq<int>)
    ensures |d| <= |s| && (|s| > 0 ==> |d| > 0)
  {
    if s == [] then []
    else
      var d := Distinct(s[..|s| - 1]);
      if s[|s| - 1] in d then d else d + [s[|s| - 1]]
  }

  /** The elements of s that are not in `have`, in order. */
  function Lacking(have: seq<int>, s: seq<int>): (r: seq<int>)
    ensures |r| <= |s|
  {
    if s == [] then []
    else Lacking(have, s[..|s| - 1]) + (if s[|s| - 1] in have then [] else [s[|s| - 1]])
  }

  function Iota(n: nat): (r: seq<int>)
    ensures |r| == n && forall i :: 0 <= i < n ==> r[i] == i
  {
    seq(n, i => i)
  }

  lemma {:induction false} DistinctMeaning(s: seq<int>)
    ensures NoRepeats(Distinct(s))
    ensures forall x :: x in Distinct(s) <==> x in s
  {
    if s != [] {
      var front, last := s[..|s| - 1], s[|s| - 1];
      DistinctMeaning(front);
      assert s == front + [last];
    }
  }

  lemma {:induction false} LackingMeaning(have: seq<int>, s: seq<int>)
    ensures forall x :: x in Lacking(have, s) <==> x in s && x !in have
    ensures NoRepeats(s) ==> NoRepeats(Lacking(have, s))
  {
    if s != [] {
      var front, last := s[..|s| - 1], s[|s| - 1];
      LackingMeaning(have, front);
      assert s == front + [last];
    }
  }

  lemma {:induction false} LackingInOrder(have: seq<int>, s: seq<int>) returns (at: seq<nat>)
    ensures Embeds(at, Lacking(have, s), s)
  {
    if s == [] {
      at := [];
    } else {
      at := LackingInOrder(have, s[..|s| - 1]);
      if s[|s| - 1] !in have { at := at + [|s| - 1]; }
    }
  }

  /** k distinct columns of a table of n have n - k columns besides them. */
  lemma {:induction false} LackingCount(have: seq<int>, n: nat)
    requires NoRepeats(have) && forall x :: x in have ==> 0 <= x < n
    ensures |have| + |Lacking(have, Iota(n))| == n
  {
    var all := have + Lacking(have, Iota(n));
    assert NoRepeats(Iota(n));
    LackingMeaning(have, Iota(n));
    forall i, j | 0 <= i < j < |all| ensures all[i] != all[j] {
      if i < |have| <= j { assert all[j] in Lacking(have, Iota(n)); }
    }
    forall x | 0 <= x < n ensures x in all { assert Iota(n)[x] == x; }
    SizeOfRange(all, n);
  }

  lemma {:induction false} SizeOfRange(s: seq<int>, n: nat)
    requires NoRepeats(s) && forall x :: x in s <==> 0 <= x < n
    ensures |s| == n
  {
    if |s| > 0 { assert s[0] in s; }
    if n > 0 {
      assert n - 1 in s;
      var k :| 0 <= k < |s| && s[k] == n - 1;
      var t := s[..k] + s[k + 1..];
      forall x ensures x in t <==> 0 <= x < n - 1 {
        if x in s && x != n - 1 {
          var i :| 0 <= i < |s| && s[i] == x;
          assert t[if i < k then i else i - 1] == x;
        }
      }
      SizeOfRange(t, n - 1);
    }
  }

  /** The first x in s stands before the first y. */
  ghost predicate ComesFirst(s: seq<int>, x: int, y: int) {
    exists p :: 0 <= p < |s| && s[p] == x && y !in s[..p + 1]
  }

  /** r has the elements of s, each of them once and placed by its first occurrence. */
  ghost predicate IsFirstOccurrences(r: seq<int>, s: seq<int>) {
    && NoRepeats(r) && (forall x :: x in r <==> x in s)
    && forall i, j :: 0 <= i < j < |r| ==> ComesFirst(s, r[i], r[j])
  }

  /**
    The primary-key index: the INTEGER PRIMARY KEY column, or the declared columns without repeats; then the
    other columns of the table, in their order.
   */
  ghost predicate PkLayout(nCol: nat, iPKey: int, declared: seq<int>, nKeyCol: nat, columns: seq<int>) {
    && nKeyCol <= |columns| == nCol && NoRepeats(columns) && (forall c :: c in columns <==> 0 <= c < nCol)
    && (iPKey >= 0 ==> nKeyCol == 1 && columns[0] == iPKey)
    && (iPKey < 0 ==> IsFirstOccurrences(columns[..nKeyCol], declared))
    && forall i, j :: nKeyCol <= i < j < nCol ==> columns[i] < columns[j]
  }

  /** Another unique index: its own key columns, then those of the primary key that it lacks, in their order. */
  ghost predicate UniqueLayout(key: seq<int>, keys: seq<int>, nKeyCol: nat, columns: seq<int>) {
    && nKeyCol == |keys| <= |columns| && columns[..nKeyCol] == keys && NoRepeats(columns[nKeyCol..])
    && (forall c :: c in columns[nKeyCol..] <==> c in key && c !in keys)
    && forall i, j :: nKeyCol <= i < j < |columns| ==> ComesFirst(key, columns[i], columns[j])
  }

  lemma {:induction false} DistinctByFirst(s: seq<int>)
    ensures IsFirstOccurrences(Distinct(s), s)
  {
    DistinctMeaning(s);
    if s != [] {
      var front, last := s[..|s| - 1], s[|s| - 1];
      DistinctByFirst(front);
      DistinctMeaning(front);
      var d := Distinct(s);
      forall i, j | 0 <= i < j < |d| ensures ComesFirst(s, d[i], d[j]) {
        assert d[i] == Distinct(front)[i] && d[i] in front;
        if j < |Distinct(front)| {
          assert ComesFirst(front, Distinct(front)[i], Distinct(front)[j]);
          var p :| 0 <= p < |front| && front[p] == d[i] && d[j] !in front[..p + 1];
          assert s[..p + 1] == front[..p + 1];
        } else {
          var p :| 0 <= p < |front| && front[p] == d[i];
          assert forall x :: x in s[..p + 1] ==> x in front;
        }
      }
    }
  }

  lemma InOrderComesFirst(at: seq<nat>, r: seq<int>, s: seq<int>)
    requires Embeds(at, r, s) && NoRepeats(s)
    ensures forall i, j :: 0 <= i < j < |r| ==> ComesFirst(s, r[i], r[j])
  {
    forall i, j | 0 <= i < j < |r| ensures ComesFirst(s, r[i], r[j]) {
      assert s[at[i]] == r[i] && s[at[j]] == r[j] && r[j] !in s[..at[i] + 1];
    }
  }

  // ---------------------------------------------------------------------------------------------
  // The index objects

  class Index {
    var aiColumn: array<int>
    var nKeyCol: nat
    var nColumn: nat
    var isResized: bool

    ghost predicate Valid()
      reads this
    {
      0 < nKeyCol <= nColumn <= aiColumn.Length
    }

    /** An index as CREATE TABLE has built it: key columns, then the rowid. */
    ghost predicate Fresh()
      reads this
    {
      Valid() && nColumn == nKeyCol + 1 && !isResized
    }

    ghost function Keys(): seq<int>
      requires Valid()
      reads this, aiColumn
    {
      aiColumn[..nKeyCol]
    }

    ghost function Columns(): seq<int>
      requires Valid()
      reads this, aiColumn
    {
      aiColumn[..nColumn]
    }

    /** An index on the given column, as sqlite3CreateIndex makes it for an INTEGER PRIMARY KEY. */
    constructor Single(column: int)
      ensures Fresh() && fresh(aiColumn) && Keys() == [column]
    {
      aiColumn := new int[2](i => if i == 0 then column else -1);
      nKeyCol, nColumn, isResized := 1, 2, false;
      new;
      assert aiColumn[..1] == [column];
    }

    /** resizeIndexObject */
    method Resize(n: nat)
      requires Valid() && (nColumn < n ==> !isResized)
      modifies this
      ensures Valid() && nKeyCol == old(nKeyCol)
      ensures nColumn == if old(nColumn) >= n then old(nColumn) else n
      ensures aiColumn[..old(nColumn)] == old(aiColumn[..nColumn])
      ensures aiColumn == old(aiColumn) || fresh(aiColumn)
    {
      if nColumn >= n { return; }
      var zExtra := new int[n](_ => 0);
      for i := 0 to nColumn
        invariant unchanged(this) && fresh(zExtra)
        invariant zExtra[..i] == aiColumn[..i]
      {
        zExtra[i] := aiColumn[i];
      }
      aiColumn, nColumn, isResized := zExtra, n, true;
    }
  }

  /** hasColumn: is x among the first nCol entries? */
  method HasColumn(aiCol: array<int>, nCol: nat, x: int) returns (found: bool)
    requires nCol <= aiCol.Length
    ensures found <==> x in aiCol[..nCol]
  {
    for k := 0 to nCol
      invariant x !in aiCol[..k]
    {
      if x == aiCol[k] { return true; }
    }
    return false;
  }

  method PutNext(aiCol: array<int>, j: nat, x: int)
    requires j < aiCol.Length
    modifies aiCol
    ensures aiCol[..j + 1] == old(aiCol[..j]) + [x]
    ensures forall k :: j < k < aiCol.Length ==> aiCol[k] == old(aiCol[k])
  {
    aiCol[j] := x;
  }

  /** Write x at j unless it is among the first n entries, `have`. */
  method AppendUnlessIn(aiCol: array<int>, n: nat, j: nat, x: int, ghost have: seq<int>) returns (j': nat)
    requires n <= j <= aiCol.Length && have == aiCol[..j][..n]
    requires j < aiCol.Length || x in have
    modifies aiCol
    ensures j' == (if x in have then j else j + 1) <= aiCol.Length
    ensures forall k :: j < k < aiCol.Length ==> aiCol[k] == old(aiCol[k])
    ensures aiCol[..j'] == old(aiCol[..j]) + (if x in have then [] else [x])
  {
    assert aiCol[..n] == have;
    var found := HasColumn(aiCol, n, x);
    j' := j;
    if !found {
      PutNext(aiCol, j, x);
      j' := j + 1;
    }
  }

  lemma DistinctGrows(s: seq<int>, i: nat)
    requires i < |s|
    ensures Distinct(s[..i + 1]) == Distinct(s[..i]) + (if s[i] in Distinct(s[..i]) then [] else [s[i]])
  {
    assert s[..i + 1][..i] == s[..i];
  }

  lemma DistinctFirst(s: seq<int>)
    requires s != []
    ensures s[..1] == [s[0]] == Distinct(s[..1])
  {
    assert s[..1][..0] == [];
  }

  /** Remove repeated columns from the primary key. */
  method DedupeKey(pPk: Index)
    requires pPk.Fresh()
    modifies pPk, pPk.aiColumn
    ensures pPk.Fresh() && pPk.aiColumn == old(pPk.aiColumn)
    ensures pPk.Keys() == Distinct(old(pPk.Keys()))
  {
    hide Distinct;
    var i, j := 1, 1;
    ghost var keys := pPk.Keys();
    DistinctFirst(keys);
    while i < pPk.nKeyCol
      invariant pPk.aiColumn == old(pPk.aiColumn) && pPk.nKeyCol == |keys| && !pPk.isResized
      invariant 1 <= j <= i <= |keys| && pPk.nColumn == |keys| + 1 - (i - j) && |keys| < pPk.aiColumn.Length
      invariant pPk.aiColumn[..j] == Distinct(keys[..i])
      invariant forall k :: i <= k < |keys| ==> pPk.aiColumn[k] == keys[k]
    {
      DistinctGrows(keys, i);
      var j' := AppendUnlessIn(pPk.aiColumn, j, j, pPk.aiColumn[i], Distinct(keys[..i]));
      if j' == j { pPk.nColumn := pPk.nColumn - 1; }
      j := j';
      i := i + 1;
    }
    pPk.nKeyCol := j;
    assert keys[..i] == keys;
  }

  lemma {:induction false} LackingGrows(have: seq<int>, s: seq<int>, i: nat)
    requires i < |s|
    ensures Lacking(have, s[..i + 1]) == Lacking(have, s[..i]) + (if s[i] in have then [] else [s[i]])
    ensures |Lacking(have, s[..i + 1])| <= |Lacking(have, s)|
    decreases |s|
  {
    assert s[..i + 1][..i] == s[..i];
    if i + 1 < |s| {
      assert s[..|s| - 1][..i + 1] == s[..i + 1];
      LackingGrows(have, s[..|s| - 1], i);
    } else {
      assert s[..i + 1] == s;
    }
  }

  /** How many primary-key columns the index lacks. */
  method CountLacking(pIdx: Index, pPk: Index) returns (n: nat)
    requires pIdx.Valid() && pPk.Valid()
    ensures n == |Lacking(pIdx.Keys(), pPk.Keys())|
  {
    ghost var keys, pk := pIdx.Keys(), pPk.Keys();
    n := 0;
    for i := 0 to pPk.nKeyCol
      invariant n == |Lacking(keys, pk[..i])|
    {
      LackingGrows(keys, pk, i);
      var found := HasColumn(pIdx.aiColumn, pIdx.nKeyCol, pPk.aiColumn[i]);
      assert found <==> pk[i] in keys;
      if !found { n := n + 1; }
    }
    assert pk[..pPk.nKeyCol] == pk;
  }

  /** The list so far, and what one more primary-key column makes of it. */
  lemma AppendGrows(have: seq<int>, s: seq<int>, i: nat)
    requires i < |s|
    ensures have + Lacking(have, s[..i + 1]) == have + Lacking(have, s[..i]) + (if s[i] in have then [] else [s[i]])
    ensures |have + Lacking(have, s[..i + 1])| <= |have| + |Lacking(have, s)|
  {
    LackingGrows(have, s, i);
  }

  /** Append the primary-key columns pkCol[..nPk] that the index lacks after its nKey key columns. */
  method AppendLacking(aiCol: array<int>, nKey: nat, pkCol: array<int>, nPk: nat, ghost keys: seq<int>)
    requires aiCol != pkCol && nKey <= aiCol.Length && nPk <= pkCol.Length
    requires keys == aiCol[..nKey] && nKey + |Lacking(keys, pkCol[..nPk])| <= aiCol.Length
    modifies aiCol
    ensures aiCol[..nKey + |Lacking(keys, pkCol[..nPk])|] == keys + Lacking(keys, pkCol[..nPk])
  {
    var j := nKey;
    ghost var pk := pkCol[..nPk];
    for i := 0 to nPk
      invariant j == |keys + Lacking(keys, pk[..i])| <= |keys| + |Lacking(keys, pk)|
      invariant aiCol[..j] == keys + Lacking(keys, pk[..i])
    {
      AppendGrows(keys, pk, i);
      j := AppendUnlessIn(aiCol, nKey, j, pkCol[i], keys);
    }
    assert pk[..nPk] == pk;
  }

  /** Give a unique index the primary-key columns it lacks, in place of the rowid. */
  method AppendKey(pIdx: Index, pPk: Index)
    requires pIdx.Fresh() && pPk.Valid() && pIdx != pPk && pIdx.aiColumn != pPk.aiColumn
    modifies pIdx, pIdx.aiColumn
    ensures pIdx.Valid() && (pIdx.aiColumn == old(pIdx.aiColumn) || fresh(pIdx.aiColumn))
    ensures pIdx.nKeyCol == old(pIdx.nKeyCol)
    ensures pIdx.Columns() == old(pIdx.Keys()) + Lacking(old(pIdx.Keys()), pPk.Keys())
  {
    ghost var keys, pk := pIdx.Keys(), pPk.Keys();
    var n := CountLacking(pIdx, pPk);
    if n == 0 {
      pIdx.nColumn := pIdx.nKeyCol;
      assert pIdx.Columns() == keys + Lacking(keys, pk);
      return;
    }
    pIdx.Resize(pIdx.nKeyCol + n);
    assert pIdx.Keys() == keys by { assert pIdx.aiColumn[..|keys| + 1][..|keys|] == keys; }
    AppendLacking(pIdx.aiColumn, pIdx.nKeyCol, pPk.aiColumn, pPk.nKeyCol, keys);
  }

  /** Add every other table column to the primary-key index, so that it covers the table. */
  method CoverTable(pPk: Index, nCol: nat)
    requires pPk.Fresh() && NoRepeats(pPk.Keys()) && forall c :: c in pPk.Keys() ==> 0 <= c < nCol
    modifies pPk, pPk.aiColumn
    ensures pPk.Valid() && (pPk.aiColumn == old(pPk.aiColumn) || fresh(pPk.aiColumn))
    ensures pPk.nKeyCol == old(pPk.nKeyCol)
    ensures pPk.Columns() == old(pPk.Keys()) + Lacking(old(pPk.Keys()), Iota(nCol))
  {
    var nPk := pPk.nKeyCol;
    ghost var keys := pPk.Keys();
    LackingCount(keys, nCol);
    if nPk < nCol {
      pPk.Resize(nCol);
      assert pPk.Keys() == keys by { assert pPk.aiColumn[..|keys| + 1][..|keys|] == keys; }
      FillRest(pPk, keys, nCol);
    } else {
      pPk.nColumn := nCol;
      assert Lacking(keys, Iota(nCol)) == [];
    }
  }

  method FillRest(pPk: Index, ghost keys: seq<int>, nCol: nat)
    requires pPk.Valid() && pPk.nColumn == nCol && pPk.Keys() == keys
    requires |keys| + |Lacking(keys, Iota(nCol))| == nCol
    modifies pPk.aiColumn
    ensures pPk.aiColumn[..nCol] == keys + Lacking(keys, Iota(nCol))
  {
    var j := pPk.nKeyCol;
    ghost var all := Iota(nCol);
    for i := 0 to nCol
      invariant j == |keys + Lacking(keys, all[..i])| <= nCol
      invariant pPk.aiColumn[..j] == keys + Lacking(keys, all[..i])
    {
      AppendGrows(keys, all, i);
      NotYetAdded(keys, all, i);
      j := AppendUnlessIn(pPk.aiColumn, j, j, i, keys + Lacking(keys, all[..i]));
    }
    assert all[..nCol] == all;
  }

  lemma NotYetAdded(have: seq<int>, all: seq<int>, i: nat)
    requires i < |all| && forall k :: 0 <= k < |all| ==> all[k] == k
    ensures i in have + Lacking(have, all[..i]) <==> i in have
  {
    LackingMeaning(have, all[..i]);
  }

  // ---------------------------------------------------------------------------------------------
  // The whole conversion

  /** No two of the index objects share storage. */
  ghost predicate Separate(pPk: Index, others: seq<Index>)
    reads pPk, others
  {
    && (forall i :: 0 <= i < |others| ==> others[i] != pPk && others[i].aiColumn != pPk.aiColumn)
    && (forall i, j :: 0 <= i < j < |others| ==> others[i] != others[j] && others[i].aiColumn != others[j].aiColumn)
  }

  /** Index idx is as CREATE TABLE has built it, with these key columns. */
  ghost predicate Built(idx: Index, keys: seq<int>)
    reads idx, idx.aiColumn
  {
    idx.Fresh() && idx.Keys() == keys
  }

  /** Index idx holds these columns, the first nKeyCol of them as its key. */
  ghost predicate Holds(idx: Index, nKeyCol: nat, columns: seq<int>)
    reads idx, idx.aiColumn
  {
    idx.Valid() && idx.nKeyCol == nKeyCol && idx.Columns() == columns
  }

  /** The first n of these indices are converted, the others are as CREATE TABLE has built them. */
  ghost predicate Converted(others: seq<Index>, n: nat, pk: seq<int>, keys: seq<seq<int>>)
    requires n <= |others| == |keys|
    reads others, set i | 0 <= i < |others| :: others[i].aiColumn
  {
    && (forall i :: 0 <= i < n ==> Holds(others[i], |keys[i]|, keys[i] + Lacking(keys[i], pk)))
    && (forall i :: n <= i < |others| ==> Built(others[i], keys[i]))
  }

  /** One turn of the loop. */
  method AppendKeyTo(pPk: Index, others: seq<Index>, k: nat, ghost pk: seq<int>, ghost keys: seq<seq<int>>)
    requires k < |others| == |keys| && Built(pPk, pk) && Separate(pPk, others) && Converted(others, k, pk, keys)
    modifies others[k], others[k].aiColumn
    ensures Separate(pPk, others) && Converted(others, k + 1, pk, keys)
    ensures others[k].aiColumn == old(others[k].aiColumn) || fresh(others[k].aiColumn)
    ensures forall i :: 0 <= i < |others| && i != k ==> others[i].aiColumn == old(others[i].aiColumn)
  {
    assert Built(others[k], keys[k]);
    AppendKey(others[k], pPk);
    assert Holds(others[k], |keys[k]|, keys[k] + Lacking(keys[k], pk));
    forall i | 0 <= i < |others| && i != k ensures unchanged(others[i]) && unchanged(others[i].aiColumn) {
      assert others[i] != others[k] && old(others[i].aiColumn != others[k].aiColumn);
    }
    forall i | 0 <= i < k ensures Holds(others[i], |keys[i]|, keys[i] + Lacking(keys[i], pk)) {
      assert old(Holds(others[i], |keys[i]|, keys[i] + Lacking(keys[i], pk)));
    }
    forall i | k < i < |others| ensures Built(others[i], keys[i]) {
      assert old(Built(others[i], keys[i]));
    }
  }

  /** The loop over the unique indices other than the primary key; `keys` are their key columns. */
  method AppendKeyToAll(pPk: Index, others: seq<Index>, ghost pk: seq<int>, ghost keys: seq<seq<int>>)
    requires Built(pPk, pk) && Separate(pPk, others) && |keys| == |others| && Converted(others, 0, pk, keys)
    modifies others, set i | 0 <= i < |others| :: others[i].aiColumn
    ensures Separate(pPk, others) && Converted(others, |others|, pk, keys)
  {
    var k := 0;
    while k < |others|
      invariant 0 <= k <= |others| && Separate(pPk, others) && Built(pPk, pk) && Converted(others, k, pk, keys)
      invariant forall i :: 0 <= i < |others| ==>
        others[i].aiColumn == old(others[i].aiColumn) || fresh(others[i].aiColumn)
    {
      AppendKeyTo(pPk, others, k, pk, keys);
      k := k + 1;
    }
  }

  /**
    convertToWithoutRowidTable: an INTEGER PRIMARY KEY (iPKey >= 0) gets a new index; otherwise the
    declared key loses its repeated columns.
   */
  method Convert(nCol: nat, iPKey: int, declared: Index, others: seq<Index>, ghost pkKeys: seq<int>,
                 ghost keys: seq<seq<int>>)
    returns (pPk: Index)
    requires Built(declared, pkKeys) && Separate(declared, others) && |keys| == |others|
    requires forall i :: 0 <= i < |others| ==> Built(others[i], keys[i])
    requires iPKey < nCol && (iPKey < 0 ==> forall c :: c in pkKeys ==> 0 <= c < nCol)
    modifies declared, declared.aiColumn, others, set i | 0 <= i < |others| :: others[i].aiColumn
    ensures pPk.Valid() && PkLayout(nCol, iPKey, pkKeys, pPk.nKeyCol, pPk.Columns())
    ensures forall i :: 0 <= i < |others| ==>
      others[i].Valid() && UniqueLayout(pPk.Keys(), keys[i], others[i].nKeyCol, others[i].Columns())
  {
    hide PkLayout, UniqueLayout, Lacking, Distinct;
    ghost var key := PkKey(iPKey, pkKeys);
    DistinctMeaning(pkKeys);
    pPk := LocateKey(iPKey, declared, others, pkKeys);
    FinishConvert(nCol, pPk, others, key, keys);
    assert pPk.Keys() == key;
    forall i | 0 <= i < |others|
      ensures others[i].Valid() && UniqueLayout(key, keys[i], others[i].nKeyCol, others[i].Columns())
    {
      assert Holds(others[i], |keys[i]|, keys[i] + Lacking(keys[i], key));
      ConversionMeaning(nCol, iPKey, pkKeys, keys[i]);
    }
    ConversionMeaning(nCol, iPKey, pkKeys, []);
  }

  /** The primary-key index: a new one on the INTEGER PRIMARY KEY column, or the declared one without repeats. */
  method LocateKey(iPKey: int, declared: Index, others: seq<Index>, ghost pkKeys: seq<int>) returns (pPk: Index)
    requires Built(declared, pkKeys) && Separate(declared, others)
    modifies declared, declared.aiColumn
    ensures Built(pPk, PkKey(iPKey, pkKeys)) && Separate(pPk, others)
    ensures pPk == declared || fresh(pPk)
    ensures pPk.aiColumn == old(declared.aiColumn) || fresh(pPk.aiColumn)
  {
    if iPKey >= 0 {
      pPk := new Index.Single(iPKey);
    } else {
      DedupeKey(declared);
      pPk := declared;
    }
  }

  method FinishConvert(nCol: nat, pPk: Index, others: seq<Index>, ghost key: seq<int>, ghost keys: seq<seq<int>>)
    requires Built(pPk, key) && Separate(pPk, others) && |keys| == |others|
    requires forall i :: 0 <= i < |others| ==> Built(others[i], keys[i])
    requires NoRepeats(key) && forall c :: c in key ==> 0 <= c < nCol
    modifies pPk, pPk.aiColumn, others, set i | 0 <= i < |others| :: others[i].aiColumn
    ensures Holds(pPk, |key|, key + Lacking(key, Iota(nCol)))
    ensures forall i :: 0 <= i < |others| ==> Holds(others[i], |keys[i]|, keys[i] + Lacking(keys[i], key))
  {
    AppendKeyToAll(pPk, others, key, keys);
    label appended:
    CoverTable(pPk, nCol);
    forall i | 0 <= i < |others| ensures Holds(others[i], |keys[i]|, keys[i] + Lacking(keys[i], key)) {
      assert old@appended(Holds(others[i], |keys[i]|, keys[i] + Lacking(keys[i], key)));
    }
  }

  function PkKey(iPKey: int, declared: seq<int>): seq<int> {
    if iPKey >= 0 then [iPKey] else Distinct(declared)
  }

  /** What the conversion makes of the column lists has the layout of a table without rowid. */
  lemma ConversionMeaning(nCol: nat, iPKey: int, declared: seq<int>, keys: seq<int>)
    requires iPKey < nCol && (iPKey < 0 ==> forall c :: c in declared ==> 0 <= c < nCol)
    ensures var key := PkKey(iPKey, declared);
            && PkLayout(nCol, iPKey, declared, |key|, key + Lacking(key, Iota(nCol)))
            && UniqueLayout(key, keys, |keys|, keys + Lacking(keys, key))
  {
    hide NoRepeats, InOrderOf, Lacking, Distinct;
    var key := PkKey(iPKey, declared);
    DistinctByFirst(declared);
    OneColumnNoRepeats(iPKey);
    PkHasLayout(nCol, key);
    UniqueHasLayout(keys, key);
    assert (key + Lacking(key, Iota(nCol)))[..|key|] == key;
  }

  lemma OneColumnNoRepeats(c: int)
    ensures NoRepeats([c])
  {
  }

  /** A key without repeats, followed by the other columns. */
  lemma PkHasLayout(nCol: nat, key: seq<int>)
    requires NoRepeats(key) && forall c :: c in key ==> 0 <= c < nCol
    ensures var columns := key + Lacking(key, Iota(nCol));
            && |columns| == nCol && NoRepeats(columns) && (forall c :: c in columns <==> 0 <= c < nCol)
            && forall i, j :: |key| <= i < j < nCol ==> columns[i] < columns[j]
  {
    var rest := Lacking(key, Iota(nCol));
    var all := key + rest;
    assert NoRepeats(Iota(nCol));
    LackingMeaning(key, Iota(nCol));
    LackingCount(key, nCol);
    forall i, j | 0 <= i < j < |all| ensures all[i] != all[j] {
      if i < |key| <= j { assert all[j] in rest; }
    }
    forall c | 0 <= c < nCol ensures c in all { assert Iota(nCol)[c] == c; }
    var at := LackingInOrder(key, Iota(nCol));
    forall i, j | |key| <= i < j < nCol ensures all[i] < all[j] {
      assert at[i - |key|] < at[j - |key|] && all[i] == rest[i - |key|] && all[j] == rest[j - |key|];
    }
  }

  lemma UniqueHasLayout(keys: seq<int>, key: seq<int>)
    requires NoRepeats(key)
    ensures UniqueLayout(key, keys, |keys|, keys + Lacking(keys, key))
  {
    var added := Lacking(keys, key);
    var columns := keys + added;
    LackingMeaning(keys, key);
    var at := LackingInOrder(keys, key);
    InOrderComesFirst(at, added, key);
    assert columns[..|keys|] == keys && columns[|keys|..] == added;
    forall i, j | |keys| <= i < j < |columns| ensures ComesFirst(key, columns[i], columns[j]) {
      assert columns[i] == added[i - |keys|] && columns[j] == added[j - |keys|];
    }
  }
}
