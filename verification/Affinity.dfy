/**
  sqlite3AffinityType of sqlcipher/src/build.c: the affinity of a declared column type, found with a
  rolling 32-bit window over the lower-cased type name, against the documented table of substrings.
 */
module Affinity {
  import opened SqlText

  datatype Aff = INTEGER | TEXT | BLOB | REAL | NUMERIC

  const TWO32 := 0x1_0000_0000

  /** word, compared case-insensitively, ends at position i of z. */
  predicate EndsAt(z: string, i: nat, word: string)
    requires i <= |z|
  {
    |word| <= i && SameWord(z[i - |word|..i], word)
  }

  /** word occurs in the first n characters of z. */
  ghost predicate Occurs(z: string, n: nat, word: string)
    requires n <= |z|
  {
    exists i :: 0 <= i <= n && EndsAt(z, i, word)
  }

  /** The documented table: entries toward the top take priority. */
  ghost function TableAffinity(z: string): Aff {
    if Occurs(z, |z|, "int") then INTEGER
    else if Occurs(z, |z|, "char") || Occurs(z, |z|, "clob") || Occurs(z, |z|, "text") then TEXT
    else if Occurs(z, |z|, "blob") then BLOB
    else if Occurs(z, |z|, "real") || Occurs(z, |z|, "floa") || Occurs(z, |z|, "doub") then REAL
    else NUMERIC
  }

  /** The k-th byte before position i, lower-cased; zero before the start. */
  function Back(z: CString, i: nat, k: nat): (b: nat)
    requires i <= |z|
    ensures b < 256 && (b > 0 <==> k < i)
  {
    if k < i then LowerInRange(z[i - 1 - k]); Lower(z[i - 1 - k]) as int else 0
  }

  lemma LowerInRange(c: char)
    requires '\0' < c <= '\U{00ff}'
    ensures 0 < Lower(c) as int < 256
  {}

  /** The window h after i characters: the last four of them, most recent in the low byte. */
  function Window(z: CString, i: nat): nat
    requires i <= |z|
  {
    Back(z, i, 3) * 0x100_0000 + Back(z, i, 2) * 0x1_0000 + Back(z, i, 1) * 0x100 + Back(z, i, 0)
  }

  lemma WindowStep(z: CString, i: nat)
    requires i < |z|
    ensures Window(z, i + 1) == (Window(z, i) * 0x100 + Lower(z[i]) as int) % TWO32
  {
    assert Back(z, i + 1, 3) == Back(z, i, 2) && Back(z, i + 1, 2) == Back(z, i, 1)
      && Back(z, i + 1, 1) == Back(z, i, 0);
  }

  /** (a<<24) + (b<<16) + (c<<8) + d */
  function Code(word: string): nat
    requires |word| == 4
  {
    word[0] as int * 0x100_0000 + word[1] as int * 0x1_0000 + word[2] as int * 0x100 + word[3] as int
  }

  lemma WindowIsWord(z: CString, i: nat, word: string)
    requires i <= |z| && |word| == 4 && forall k :: 0 <= k < 4 ==> '\0' < word[k] <= '\U{00ff}'
    ensures Window(z, i) == Code(word) <==> EndsAt(z, i, word)
  {
    assert Window(z, i) == Code(word) <==> forall k :: 0 <= k < 4 ==> Back(z, i, 3 - k) == word[k] as int by {
      assert Window(z, i) == Code(word) ==>
        Back(z, i, 3) == word[0] as int && Back(z, i, 2) == word[1] as int
        && Back(z, i, 1) == word[2] as int && Back(z, i, 0) == word[3] as int;
    }
    if i >= 4 {
      var w := z[i - 4..i];
      assert forall k :: 0 <= k < 4 ==> w[k] == z[i - 1 - (3 - k)];
    }
  }

  /** h & 0x00FFFFFF */
  lemma LowBytes(a: nat, b: nat, c: nat, d: nat)
    requires b < 256 && c < 256 && d < 256
    ensures (a * 0x100_0000 + b * 0x1_0000 + c * 0x100 + d) % 0x100_0000 == b * 0x1_0000 + c * 0x100 + d
  {}

  lemma WindowIsInt(z: CString, i: nat)
    requires i <= |z|
    ensures Window(z, i) % 0x100_0000 == 'i' as int * 0x1_0000 + 'n' as int * 0x100 + 't' as int <==>
      EndsAt(z, i, "int")
  {
    var b, c, d := Back(z, i, 2), Back(z, i, 1), Back(z, i, 0);
    LowBytes(Back(z, i, 3), b, c, d);
    if i >= 3 {
      var w := z[i - 3..i];
      assert w[0] == z[i - 1 - 2] && w[1] == z[i - 1 - 1] && w[2] == z[i - 1 - 0];
      assert EndsAt(z, i, "int") <==> Lower(w[0]) == 'i' && Lower(w[1]) == 'n' && Lower(w[2]) == 't';
    }
  }

  lemma OccursStep(z: string, n: nat, word: string)
    requires n < |z|
    ensures Occurs(z, n + 1, word) <==> Occurs(z, n, word) || EndsAt(z, n + 1, word)
  {}

  /** A word has occurred by position i when it had before, or the window equals its code. */
  lemma WordHolds(z: CString, i: nat, word: string)
    requires 0 < i <= |z| && |word| == 4 && forall k :: 0 <= k < 4 ==> '\0' < word[k] <= '\U{00ff}'
    ensures Occurs(z, i, word) == (Occurs(z, i - 1, word) || Window(z, i) == Code(word))
  {
    WindowIsWord(z, i, word);
    OccursStep(z, i - 1, word);
  }

  const INT_CODE: nat := 'i' as int * 0x1_0000 + 'n' as int * 0x100 + 't' as int

  /** Which words end here (or have occurred so far). */
  datatype Hits = Hits(char_: bool, clob: bool, text: bool, blob: bool, real_: bool, floa: bool, doub: bool, int_: bool)

  function WindowHits(h: nat): Hits {
    Hits(h == Code("char"), h == Code("clob"), h == Code("text"), h == Code("blob"),
         h == Code("real"), h == Code("floa"), h == Code("doub"), h % 0x100_0000 == INT_CODE)
  }

  ghost function Occurring(z: string, n: nat): Hits
    requires n <= |z|
  {
    Hits(Occurs(z, n, "char"), Occurs(z, n, "clob"), Occurs(z, n, "text"), Occurs(z, n, "blob"),
         Occurs(z, n, "real"), Occurs(z, n, "floa"), Occurs(z, n, "doub"), Occurs(z, n, "int"))
  }

  function Or(a: Hits, b: Hits): Hits {
    Hits(a.char_ || b.char_, a.clob || b.clob, a.text || b.text, a.blob || b.blob,
         a.real_ || b.real_, a.floa || b.floa, a.doub || b.doub, a.int_ || b.int_)
  }

  /** The affinity by the table, for the words that have occurred. */
  function ByTable(o: Hits): Aff {
    if o.int_ then INTEGER
    else if o.char_ || o.clob || o.text then TEXT
    else if o.blob then BLOB
    else if o.real_ || o.floa || o.doub then REAL
    else NUMERIC
  }

  /** The if-chain of the loop: the affinity after the window has become h. */
  function NextAffinity(hit: Hits, aff: Aff): Aff {
    if hit.char_ then TEXT
    else if hit.clob then TEXT
    else if hit.text then TEXT
    else if hit.blob && (aff == NUMERIC || aff == REAL) then BLOB
    else if hit.real_ && aff == NUMERIC then REAL
    else if hit.floa && aff == NUMERIC then REAL
    else if hit.doub && aff == NUMERIC then REAL
    else if hit.int_ then INTEGER
    else aff
  }

  /** At most one word ends at a position. */
  predicate AtMostOne(h: Hits) {
    && (h.int_ ==> !h.char_ && !h.clob && !h.text && !h.blob && !h.real_ && !h.floa && !h.doub)
  }

  lemma ChainStep(before: Hits, hit: Hits)
    requires !before.int_ && AtMostOne(hit)
    ensures NextAffinity(hit, ByTable(before)) == ByTable(Or(before, hit))
  {}

  lemma CodesDiffer(h: nat)
    ensures AtMostOne(WindowHits(h))
  {}

  lemma HitsAreOccurrences(z: CString, i: nat)
    requires 0 < i <= |z|
    ensures Occurring(z, i) == Or(Occurring(z, i - 1), WindowHits(Window(z, i)))
  {
    WordHolds(z, i, "char");
    WordHolds(z, i, "clob");
    WordHolds(z, i, "text");
    WordHolds(z, i, "blob");
    WordHolds(z, i, "real");
    WordHolds(z, i, "floa");
    WordHolds(z, i, "doub");
    WindowIsInt(z, i);
    OccursStep(z, i - 1, "int");
  }

  lemma AffinityStep(z: CString, i: nat, aff: Aff)
    requires 0 < i <= |z| && !Occurs(z, i - 1, "int") && aff == ByTable(Occurring(z, i - 1))
    ensures NextAffinity(WindowHits(Window(z, i)), aff) == ByTable(Occurring(z, i))
    ensures NextAffinity(WindowHits(Window(z, i)), aff) == INTEGER <==> Occurs(z, i, "int")
  {
    var hit := WindowHits(Window(z, i));
    CodesDiffer(Window(z, i));
    HitsAreOccurrences(z, i);
    ChainStep(Occurring(z, i - 1), hit);
    assert Occurring(z, i).int_ == Occurs(z, i, "int");
  }

  /** "int" seen in a prefix is seen in the whole. */
  lemma OccursGrows(z: string, n: nat, word: string)
    requires n <= |z| && Occurs(z, n, word)
    ensures Occurs(z, |z|, word)
  {}

  /** The affinity part of sqlite3AffinityType. */
  method AffinityType(zIn: CString) returns (aff: Aff)
    ensures aff == TableAffinity(zIn)
  {
    var h, i := 0, 0;
    aff := NUMERIC;
    NothingYet(zIn);
    while i < |zIn|
      invariant 0 <= i <= |zIn| && h == Window(zIn, i)
      invariant !Occurs(zIn, i, "int") && aff == ByTable(Occurring(zIn, i))
    {
      WindowStep(zIn, i);
      h := (h * 0x100 + Lower(zIn[i]) as int) % TWO32;
      i := i + 1;
      AffinityStep(zIn, i, aff);
      aff := NextAffinity(WindowHits(h), aff);
      if aff == INTEGER {
        OccursGrows(zIn, i, "int");
        return;
      }
    }
  }

  lemma NothingYet(z: CString)
    ensures Occurring(z, 0) == Hits(false, false, false, false, false, false, false, false)
  {}
}
