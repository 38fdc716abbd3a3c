/**
  The two leaf representations of sqlcipher/src/bitvec.c as predicates and lemmas on plain sequences:
  a linear-probing hash table of NINT slots (zero means free) and a bitmap of NELEM bytes.
 */
module BitvecHash {

  // Constants for 8-byte pointers: BITVEC_USIZE is (512 - 12) / 8 * 8 = 496 bytes.
  const NELEM := 496
  const NBIT := 3968
  const NINT := 124
  const MXHASH := 62
  const NPTR := 62

  /** BITVEC_HASH of the 0-based index of value x. */
  function Home(x: nat): (h: nat)
    requires x > 0
    ensures h < NINT
  {
    (x - 1) % NINT
  }

  function NextSlot(h: nat): (h': nat)
    requires h < NINT
    ensures h' < NINT && h' == (h + 1) % NINT
  {
    if h + 1 >= NINT then 0 else h + 1
  }

  /** Slots visited when walking cyclically from h up to but excluding k. */
  predicate Before(h: nat, k: nat, m: nat) {
    if h <= k then h <= m < k else m >= h || m < k
  }

  /** The number of steps from h to k. */
  function Steps(h: nat, k: nat): nat
    requires h < NINT && k < NINT
  {
    if h <= k then k - h else k + NINT - h
  }

  /** The entry in slot k is found by probing from its home slot. */
  predicate Reachable(t: seq<nat>, k: nat)
    requires |t| == NINT && k < NINT && t[k] > 0
  {
    forall m :: 0 <= m < NINT && Before(Home(t[k]), k, m) ==> t[m] != 0
  }

  /** A proper table: no value twice, every value reachable. */
  ghost predicate Table(t: seq<nat>) {
    && |t| == NINT
    && (forall j, k :: 0 <= j < k < NINT && t[j] != 0 ==> t[j] != t[k])
    && (forall k :: 0 <= k < NINT && t[k] != 0 ==> Reachable(t, k))
  }

  function Used(t: seq<nat>): (n: nat)
    ensures n <= |t|
  {
    if t == [] then 0 else (if t[0] != 0 then 1 else 0) + Used(t[1..])
  }

  function Values(t: seq<nat>): set<nat> {
    set k | 0 <= k < |t| && t[k] != 0 :: t[k]
  }

  lemma {:induction false} UsedUpdate(t: seq<nat>, k: nat, x: nat)
    requires k < |t| && t[k] == 0 && x > 0
    ensures Used(t[k := x]) == Used(t) + 1
  {
    if k > 0 {
      assert t[k := x][1..] == t[1..][k - 1 := x];
      UsedUpdate(t[1..], k - 1, x);
    } else {
      assert t[k := x][1..] == t[1..];
    }
  }

  lemma {:induction false} FreeSlot(t: seq<nat>) returns (z: nat)
    requires Used(t) < |t|
    ensures z < |t| && t[z] == 0
  {
    if t[0] == 0 {
      z := 0;
    } else {
      z := FreeSlot(t[1..]);
      z := z + 1;
    }
  }

  /** Used counts the distinct values of a table. */
  lemma {:induction false} UsedIsSize(t: seq<nat>)
    requires forall j, k :: 0 <= j < k < |t| && t[j] != 0 ==> t[j] != t[k]
    ensures Used(t) == |Values(t)|
  {
    if t == [] {
      assert Values(t) == {};
    } else {
      UsedIsSize(t[1..]);
      if t[0] == 0 {
        assert forall k :: 0 < k < |t| ==> t[k] == t[1..][k - 1];
        assert Values(t) == Values(t[1..]);
      } else {
        assert forall k :: 0 < k < |t| ==> t[k] == t[1..][k - 1];
        assert t[0] !in Values(t[1..]);
        assert Values(t) == {t[0]} + Values(t[1..]);
      }
    }
  }

  lemma {:induction false} UsedZero(t: seq<nat>)
    requires forall k :: 0 <= k < |t| ==> t[k] == 0
    ensures Used(t) == 0 && Values(t) == {}
  {
    if t != [] { UsedZero(t[1..]); }
  }

  /** A probe that has met only other values before the free slot h shows that x is absent. */
  lemma ProbeMiss(t: seq<nat>, x: nat, h: nat)
    requires Table(t) && x > 0 && h < NINT && t[h] == 0
    requires forall m :: 0 <= m < NINT && Before(Home(x), h, m) ==> t[m] != 0 && t[m] != x
    ensures x !in Values(t)
  {
    forall k | 0 <= k < NINT ensures t[k] != x {
      assert k == h || Before(Home(x), h, k) || Before(Home(x), k, h);
      assert t[k] != 0 ==> Reachable(t, k);
    }
  }

  /** Storing an absent value in the first free slot of its probe sequence. */
  lemma InsertKeepsTable(t: seq<nat>, x: nat, h: nat)
    requires Table(t) && x > 0 && h < NINT && t[h] == 0 && x !in Values(t)
    requires forall m :: 0 <= m < NINT && Before(Home(x), h, m) ==> t[m] != 0
    ensures Table(t[h := x]) && Used(t[h := x]) == Used(t) + 1
    ensures Values(t[h := x]) == Values(t) + {x}
  {
    var t' := t[h := x];
    UsedUpdate(t, h, x);
    forall k | 0 <= k < NINT && t'[k] != 0 ensures Reachable(t', k) {
      if k != h { assert Reachable(t, k); }
    }
    forall j, k | 0 <= j < k < NINT && t'[j] != 0 ensures t'[j] != t'[k] {
      assert t[j] != 0 ==> t[j] in Values(t);
      assert t[k] != 0 ==> t[k] in Values(t);
    }
    forall v ensures v in Values(t') <==> v in Values(t) + {x} {
      if v in Values(t) {
        var k :| 0 <= k < NINT && t[k] != 0 && t[k] == v;
        assert t'[k] == v;
      }
      if v == x { assert t'[h] == v; }
    }
  }

  lemma {:induction false} UsedExtend(t: seq<nat>, j: nat)
    requires j < |t|
    ensures Used(t[..j + 1]) == Used(t[..j]) + (if t[j] == 0 then 0 else 1) <= Used(t)
  {
    if j > 0 {
      UsedExtend(t[1..], j - 1);
      assert t[1..][..j] == t[..j + 1][1..] && t[1..][..j - 1] == t[..j][1..];
    } else {
      assert t[..1][1..] == [];
    }
  }

  lemma ValuesExtend(t: seq<nat>, j: nat)
    requires j < |t|
    ensures Values(t[..j + 1]) == Values(t[..j]) + (if t[j] == 0 then {} else {t[j]})
    ensures t[j] != 0 ==> t[j] in Values(t)
    ensures (forall k :: 0 <= k < j ==> t[k] != t[j]) ==> t[j] !in Values(t[..j])
  {
    forall v ensures v in Values(t[..j + 1]) <==> v in Values(t[..j]) || (v == t[j] && v != 0) {
      if v in Values(t[..j]) {
        var k :| 0 <= k < j && t[..j][k] == v;
        assert t[..j + 1][k] == v;
      }
      if v == t[j] { assert t[..j + 1][j] == v; }
    }
  }

  // ---------------------------------------------------------------------------------------------
  // Bitmap bytes

  function Mask(k: nat): bv8
    requires k < 8
  {
    match k
    case 0 => 1 case 1 => 2 case 2 => 4 case 3 => 8
    case 4 => 16 case 5 => 32 case 6 => 64 case _ => 128
  }

  predicate BitOf(b: bv8, k: nat)
    requires k < 8
  {
    b & Mask(k) != 0
  }

  lemma SetBit(b: bv8, k: nat, j: nat)
    requires k < 8 && j < 8
    ensures BitOf(b | Mask(k), j) <==> BitOf(b, j) || j == k
  {}

  lemma ClearBit(b: bv8, k: nat, j: nat)
    requires k < 8 && j < 8
    ensures BitOf(b & !Mask(k), j) <==> BitOf(b, j) && j != k
  {}
}
