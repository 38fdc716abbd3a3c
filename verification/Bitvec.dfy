/**
  sqlcipher/src/bitvec.c: a set of numbers 1..iSize held as a bitmap, a linear-probing hash table or an
  array of sub-bitvecs, switching from hash table to sub-bitvecs in the middle of an insertion.
 */
module BitvecModule {
  import opened Arith
  import opened BitvecHash

  const U32 := 0x1_0000_0000

  /** iDivisor as the unsigned 32-bit expression (iSize + BITVEC_NPTR - 1)/BITVEC_NPTR. */
  function Divisor(iSize: nat): nat {
    ((iSize + NPTR - 1) % U32) / NPTR
  }

  /** The size fits: the sum in Divisor does not wrap around. */
  predicate Fits(iSize: nat) {
    iSize + NPTR - 1 < U32
  }

  /** A wrapped sum makes the divisor zero, and nothing else does. */
  lemma DivisorZeroIffWraps(iSize: nat)
    requires 0 < iSize < U32
    ensures Divisor(iSize) == 0 <==> !Fits(iSize)
  {}

  /** The NPTR bins of size d hold every index below iSize. */
  lemma {:induction false} BinInRange(d: nat, n: nat, i: nat)
    requires d > 0 && i < d * n
    ensures Quot(d, i) < n
  {
    if i >= d { BinInRange(d, n - 1, i - d); }
  }

  /** The divisor of a hash table covers it, with bins smaller than the whole. */
  lemma DivisorCovers(iSize: nat)
    requires NBIT < iSize && Fits(iSize)
    ensures 0 < Divisor(iSize) < iSize <= Divisor(iSize) * NPTR
  {}

  class Bitvec {
    const iSize: nat
    var nSet: nat
    var iDivisor: nat
    const aBitmap: array<bv8>
    const aHash: array<nat>
    const apSub: array<Bitvec?>
    ghost var Bits: set<nat>
    ghost var Repr: set<object>

    ghost predicate Valid()
      reads this, Repr
      ensures Valid() ==> this in Repr
      decreases iSize
    {
      && this in Repr && aBitmap in Repr && aHash in Repr && apSub in Repr
      && aBitmap.Length == NELEM && aHash.Length == NINT && apSub.Length == NPTR
      && iSize < U32
      && (forall x :: x in Bits ==> 1 <= x <= iSize)
      && if iSize <= NBIT then BitmapValid()
         else if iDivisor == 0 then HashValid()
         else SubsValid()
    }

    ghost predicate BitmapValid()
      requires aBitmap.Length == NELEM && iSize <= NBIT
      reads this, aBitmap
    {
      && iDivisor == 0
      && forall i: nat :: i < iSize ==> (i + 1 in Bits <==> BitOf(aBitmap[i / 8], i % 8))
    }

    ghost predicate HashValid()
      reads this, aHash
    {
      && Table(aHash[..])
      && nSet == Used(aHash[..]) < NINT
      && Bits == Values(aHash[..])
    }

    ghost predicate SubsValid()
      requires apSub.Length == NPTR && NBIT < iSize
      reads this, Repr
      decreases iSize, 1
    {
      && apSub in Repr && Fits(iSize)
      && 0 < iDivisor < iSize <= iDivisor * NPTR
      && (forall b :: 0 <= b < NPTR && apSub[b] != null ==> SubOk(apSub[b]))
      && (forall b, c :: 0 <= b < c < NPTR && apSub[b] != null && apSub[c] != null ==>
            apSub[b].Repr !! apSub[c].Repr)
      && (forall i: nat :: i < iSize ==> (i + 1 in Bits <==> InSub(i)))
    }

    ghost predicate SubOk(sub: Bitvec)
      requires iDivisor < iSize
      reads this, Repr
      decreases iSize, 0
    {
      && sub in Repr && sub.Repr <= Repr
      && {this, aBitmap, aHash, apSub} !! sub.Repr
      && sub.iSize == iDivisor
      && sub.Valid()
    }

    ghost predicate InSub(i: nat)
      requires apSub.Length == NPTR && iDivisor > 0
      reads this, apSub, apSub[..]
    {
      var bin := Quot(iDivisor, i);
      bin < NPTR && apSub[bin] != null && Rem(iDivisor, i) + 1 in apSub[bin].Bits
    }

    /** sqlite3BitvecCreate */
    constructor (iSize: nat)
      requires iSize < U32
      ensures Valid() && fresh(Repr) && Bits == {} && this.iSize == iSize && iDivisor == 0 && nSet == 0
    {
      this.iSize, nSet, iDivisor := iSize, 0, 0;
      aBitmap := new bv8[NELEM](_ => 0);
      aHash := new nat[NINT](_ => 0);
      apSub := new Bitvec?[NPTR](_ => null);
      Bits := {};
      new;
      Repr := {this, aBitmap, aHash, apSub};
      UsedZero(aHash[..]);
    }

    /** sqlite3BitvecTestNotNull */
    method TestNotNull(i: nat) returns (r: bool)
      requires Valid() && i < U32
      ensures r <==> i in Bits
    {
      var idx: nat := if i == 0 then U32 - 1 else i - 1;
      if idx >= iSize { return false; }
      var p: Bitvec := this;
      while p.iDivisor != 0
        invariant p.Valid() && idx < p.iSize
        invariant i in Bits <==> idx + 1 in p.Bits
        decreases p.iSize
      {
        QuotientRemainder(p.iDivisor, idx);
        BinInRange(p.iDivisor, NPTR, idx);
        assert p.InSub(idx) <==> idx + 1 in p.Bits;
        var bin := idx / p.iDivisor;
        idx := idx % p.iDivisor;
        if p.apSub[bin] == null { return false; }
        assert p.SubOk(p.apSub[bin]);
        p := p.apSub[bin];
      }
      if p.iSize <= NBIT {
        r := BitOf(p.aBitmap[idx / 8], idx % 8);
      } else {
        r := p.TestInHash(idx + 1);
      }
    }

    method TestInHash(x: nat) returns (r: bool)
      requires aHash.Length == NINT && HashValid() && x > 0
      ensures r <==> x in Bits
    {
      var h: nat := Home(x);
      ghost var z := FreeSlot(aHash[..]);
      while aHash[h] != 0
        invariant h < NINT && Steps(Home(x), h) + Steps(h, z) == Steps(Home(x), z)
        invariant forall m :: 0 <= m < NINT && Before(Home(x), h, m) ==> aHash[m] != 0 && aHash[m] != x
        decreases Steps(h, z)
      {
        if aHash[h] == x { return true; }
        h := NextSlot(h);
      }
      ProbeMiss(aHash[..], x, h);
      return false;
    }

    /** Subdividing works, or the next insertion needs none. */
    predicate Safe()
      reads this
    {
      Fits(iSize) || nSet < MXHASH
    }

    /** sqlite3BitvecSet */
    method Set(i: nat)
      requires Valid() && 1 <= i <= iSize && Safe()
      modifies Repr
      ensures Valid() && fresh(Repr - old(Repr))
      ensures Bits == old(Bits) + {i}
      ensures old(iDivisor) != 0 ==> iDivisor == old(iDivisor)
      decreases iSize, if iDivisor == 0 then 1 else 0, 2
    {
      if iSize > NBIT && iDivisor != 0 {
        SetInSub(i - 1);
      } else if iSize <= NBIT {
        SetInBitmap(i - 1);
      } else {
        SetInHash(i);
      }
    }

    method SetInBitmap(i: nat)
      requires Valid() && iSize <= NBIT && i < iSize
      modifies this`Bits, aBitmap
      ensures Valid() && Bits == old(Bits) + {i + 1}
    {
      forall j | 0 <= j < 8
        ensures BitOf(aBitmap[i / 8] | Mask(i % 8), j) <==> BitOf(aBitmap[i / 8], j) || j == i % 8
      {
        SetBit(aBitmap[i / 8], i % 8, j);
      }
      aBitmap[i / 8] := aBitmap[i / 8] | Mask(i % 8);
      Bits := Bits + {i + 1};
    }

    method SetInSub(i: nat)
      requires Valid() && NBIT < iSize && iDivisor != 0 && i < iSize
      modifies Repr
      ensures Valid() && fresh(Repr - old(Repr))
      ensures Bits == old(Bits) + {i + 1} && iDivisor == old(iDivisor)
      decreases iSize, 0, 1
    {
      QuotientRemainder(iDivisor, i);
      BinInRange(iDivisor, NPTR, i);
      var bin := i / iDivisor;
      if apSub[bin] == null {
        AddSub(bin);
      }
      SetThrough(i, bin, i % iDivisor);
    }

    /** The recursive insertion into an existing sub-bitvec. */
    method SetThrough(i: nat, bin: nat, rest: nat)
      requires Valid() && NBIT < iSize && iDivisor != 0 && i < iSize
      requires bin == Quot(iDivisor, i) < NPTR && rest == Rem(iDivisor, i) && apSub[bin] != null
      modifies Repr
      ensures Valid() && fresh(Repr - old(Repr))
      ensures Bits == old(Bits) + {i + 1} && iDivisor == old(iDivisor)
      decreases iSize, 0, 0
    {
      var sub := apSub[bin];
      assert SubOk(sub);
      label before:
      sub.Set(rest + 1);
      Repr := Repr + sub.Repr;
      Bits := Bits + {i + 1};
      forall b | 0 <= b < NPTR && b != bin && apSub[b] != null
        ensures unchanged@before(apSub[b]) && SubOk(apSub[b]) && apSub[b].Repr !! sub.Repr
      {
        assert old@before(SubOk(apSub[b]));
        assert old@before(apSub[b].Repr) !! old@before(sub.Repr);
      }
      forall j: nat | j < iSize ensures j + 1 in Bits <==> InSub(j) {
        assert j + 1 in old@before(Bits) <==> old@before(InSub(j));
        if Quot(iDivisor, j) == bin && Rem(iDivisor, j) == Rem(iDivisor, i) { QuotRemInjective(iDivisor, i, j); }
      }
    }

    /** A new empty sub-bitvec in a bin that had none. */
    method AddSub(bin: nat)
      requires Valid() && NBIT < iSize && iDivisor != 0 && bin < NPTR && apSub[bin] == null
      modifies this`Repr, apSub
      ensures Valid() && fresh(Repr - old(Repr)) && Bits == old(Bits) && iDivisor == old(iDivisor)
      ensures apSub[bin] != null
    {
      var sub := new Bitvec(iDivisor);
      label before:
      apSub[bin] := sub;
      Repr := Repr + sub.Repr;
      forall b | 0 <= b < NPTR && b != bin && apSub[b] != null
        ensures SubOk(apSub[b]) && apSub[b].Repr !! sub.Repr
      {
        assert old@before(SubOk(apSub[b]));
      }
      forall j: nat | j < iSize ensures j + 1 in Bits <==> InSub(j) {
        assert j + 1 in old@before(Bits) <==> old@before(InSub(j));
      }
    }

    method SetInHash(i: nat)
      requires Valid() && NBIT < iSize && iDivisor == 0 && 1 <= i <= iSize && Safe()
      modifies Repr
      ensures Valid() && fresh(Repr - old(Repr))
      ensures Bits == old(Bits) + {i}
      decreases iSize, 1, 0
    {
      var h: nat := Home(i);
      if aHash[h] == 0 {
        if nSet < NINT - 1 {
          Store(h, i);
        } else {
          Subdivide(i);
        }
        return;
      }
      ghost var z := FreeSlot(aHash[..]);
      while aHash[h] != 0
        invariant h < NINT && Steps(Home(i), h) + Steps(h, z) == Steps(Home(i), z)
        invariant forall m :: 0 <= m < NINT && Before(Home(i), h, m) ==> aHash[m] != 0 && aHash[m] != i
        decreases Steps(h, z)
      {
        if aHash[h] == i {
          assert aHash[..][h] == i;
          return;
        }
        h := NextSlot(h);
      }
      if nSet >= MXHASH {
        Subdivide(i);
      } else {
        Store(h, i);
      }
    }

    /** The label bitvec_set_end: put i in the free slot h. */
    method Store(h: nat, i: nat)
      requires Valid() && NBIT < iSize && iDivisor == 0 && 1 <= i <= iSize
      requires nSet < NINT - 1 && h < NINT && aHash[h] == 0
      requires forall m :: 0 <= m < NINT && Before(Home(i), h, m) ==> aHash[m] != 0 && aHash[m] != i
      modifies this`nSet, this`Bits, aHash
      ensures Valid() && Bits == old(Bits) + {i} && i !in old(Bits) && nSet == old(nSet) + 1
    {
      ghost var t := aHash[..];
      ProbeMiss(t, i, h);
      InsertKeepsTable(t, i, h);
      nSet := nSet + 1;
      aHash[h] := i;
      Bits := Bits + {i};
      assert aHash[..] == t[h := i];
    }

    /** The label bitvec_set_rehash: become an array of sub-bitvecs and insert everything again. */
    method Subdivide(i: nat)
      requires Valid() && NBIT < iSize && iDivisor == 0 && 1 <= i <= iSize && Fits(iSize)
      modifies Repr
      ensures Valid() && fresh(Repr - old(Repr))
      ensures Bits == old(Bits) + {i} && iDivisor != 0
      decreases iSize, 0, 3
    {
      var aiValues := aHash[..];
      BecomeSubs();
      Set(i);
      for j := 0 to NINT
        invariant Valid() && fresh(Repr - old(Repr)) && iDivisor != 0
        invariant Bits == Values(aiValues[..j]) + {i}
      {
        ValuesExtend(aiValues, j);
        if aiValues[j] != 0 {
          assert aiValues[j] in old(Bits);
          Set(aiValues[j]);
        }
      }
      assert aiValues[..NINT] == aiValues;
    }

    /** memset(p->u.apSub) and the new divisor: an empty array of sub-bitvecs. */
    method BecomeSubs()
      requires Valid() && NBIT < iSize && iDivisor == 0 && Fits(iSize)
      modifies this`iDivisor, this`Bits, apSub
      ensures Valid() && Bits == {} && iDivisor != 0
    {
      forall b | 0 <= b < NPTR { apSub[b] := null; }
      DivisorCovers(iSize);
      iDivisor := Divisor(iSize);
      Bits := {};
    }

    /** sqlite3BitvecClear */
    method Clear(i: nat)
      requires Valid() && 1 <= i <= iSize
      modifies Repr
      ensures Valid() && Repr == old(Repr)
      ensures Bits == old(Bits) - {i}
      decreases iSize, 1
    {
      if iDivisor != 0 {
        ClearInSub(i - 1);
      } else if iSize <= NBIT {
        ClearInBitmap(i - 1);
      } else {
        ClearInHash(i);
      }
    }

    method ClearInSub(i: nat)
      requires Valid() && NBIT < iSize && iDivisor != 0 && i < iSize
      modifies Repr
      ensures Valid() && Repr == old(Repr)
      ensures Bits == old(Bits) - {i + 1}
      decreases iSize, 0
    {
      QuotientRemainder(iDivisor, i);
      BinInRange(iDivisor, NPTR, i);
      var bin := i / iDivisor;
      if apSub[bin] == null {
        assert !InSub(i);
        return;
      }
      var sub := apSub[bin];
      assert SubOk(sub);
      label before:
      sub.Clear(i % iDivisor + 1);
      Bits := Bits - {i + 1};
      forall b | 0 <= b < NPTR && b != bin && apSub[b] != null
        ensures unchanged@before(apSub[b]) && SubOk(apSub[b]) && apSub[b].Repr !! sub.Repr
      {
        assert old@before(SubOk(apSub[b]));
        assert old@before(apSub[b].Repr) !! old@before(sub.Repr);
      }
      forall j: nat | j < iSize ensures j + 1 in Bits <==> InSub(j) {
        assert j + 1 in old@before(Bits) <==> old@before(InSub(j));
        if Quot(iDivisor, j) == bin && Rem(iDivisor, j) == Rem(iDivisor, i) { QuotRemInjective(iDivisor, i, j); }
      }
    }

    method ClearInBitmap(i: nat)
      requires Valid() && iSize <= NBIT && i < iSize
      modifies this`Bits, aBitmap
      ensures Valid() && Bits == old(Bits) - {i + 1}
    {
      forall j | 0 <= j < 8
        ensures BitOf(aBitmap[i / 8] & !Mask(i % 8), j) <==> BitOf(aBitmap[i / 8], j) && j != i % 8
      {
        ClearBit(aBitmap[i / 8], i % 8, j);
      }
      aBitmap[i / 8] := aBitmap[i / 8] & !Mask(i % 8);
      Bits := Bits - {i + 1};
    }

    /** Empty the table and insert every other value again. */
    method ClearInHash(i: nat)
      requires Valid() && NBIT < iSize && iDivisor == 0 && 1 <= i <= iSize
      modifies this`nSet, this`Bits, aHash
      ensures Valid() && Bits == old(Bits) - {i}
    {
      var aiValues := aHash[..];
      forall k | 0 <= k < NINT { aHash[k] := 0; }
      nSet, Bits := 0, {};
      UsedZero(aHash[..]);
      for j := 0 to NINT
        invariant Valid() && iDivisor == 0 && nSet <= Used(aiValues[..j])
        invariant Bits == Values(aiValues[..j]) - {i}
      {
        ValuesExtend(aiValues, j);
        UsedExtend(aiValues, j);
        if aiValues[j] != 0 && aiValues[j] != i {
          assert aiValues[j] !in Values(aiValues[..j]);
          assert aiValues[j] in old(Bits);
          InsertAgain(aiValues[j]);
        }
      }
      assert aiValues[..NINT] == aiValues;
    }

    /** The probe loop of sqlite3BitvecClear for one value known to be absent. */
    method InsertAgain(x: nat)
      requires Valid() && NBIT < iSize && iDivisor == 0 && 1 <= x <= iSize && x !in Bits && nSet < NINT - 1
      modifies this`nSet, this`Bits, aHash
      ensures Valid() && Bits == old(Bits) + {x} && nSet == old(nSet) + 1
    {
      var h: nat := Home(x);
      ghost var z := FreeSlot(aHash[..]);
      while aHash[h] != 0
        invariant h < NINT && Steps(Home(x), h) + Steps(h, z) == Steps(Home(x), z)
        invariant forall m :: 0 <= m < NINT && Before(Home(x), h, m) ==> aHash[m] != 0 && aHash[m] != x
        decreases Steps(h, z)
      {
        assert aHash[..][h] in Bits;
        h := NextSlot(h);
      }
      Store(h, x);
    }

    lemma SafeWhileSmall()
      requires Valid() && (Fits(iSize) || |Bits| < MXHASH)
      ensures Safe()
    {
      if !Fits(iSize) { HashCount(); }
    }

    /** The hash form counts its distinct entries and always keeps a free slot. */
    lemma HashCount()
      requires Valid() && NBIT < iSize && iDivisor == 0
      ensures nSet == |Bits| < NINT
    {
      UsedIsSize(aHash[..]);
    }
  }

  // ---------------------------------------------------------------------------------------------
  // Whole programs of operations, as in sqlite3BitvecBuiltinTest

  datatype BitOp = SetOp(i: nat) | ClearOp(i: nat)

  function Replay(ops: seq<BitOp>): set<nat> {
    if ops == [] then {}
    else
      var bits := Replay(ops[..|ops| - 1]);
      match ops[|ops| - 1]
      case SetOp(i) => bits + {i}
      case ClearOp(i) => bits - {i}
  }

  /** Some operation sets i and no later one clears it. */
  ghost predicate SetAndNotCleared(ops: seq<BitOp>, i: nat) {
    exists k :: 0 <= k < |ops| && ops[k] == SetOp(i) && forall m :: k < m < |ops| ==> ops[m] != ClearOp(i)
  }

  lemma {:induction false} ReplayMeaning(ops: seq<BitOp>, i: nat)
    ensures i in Replay(ops) <==> SetAndNotCleared(ops, i)
  {
    if ops != [] {
      var n := |ops| - 1;
      var front := ops[..n];
      ReplayMeaning(front, i);
      if ops[n] == SetOp(i) {
        assert SetAndNotCleared(ops, i);
      } else {
        if SetAndNotCleared(front, i) && ops[n] != ClearOp(i) {
          var k :| 0 <= k < n && front[k] == SetOp(i) && forall m :: k < m < n ==> front[m] != ClearOp(i);
          assert ops[k] == SetOp(i) && forall m :: k < m < n ==> ops[m] == front[m];
        }
        if SetAndNotCleared(ops, i) {
          var k :| 0 <= k <= n && ops[k] == SetOp(i) && forall m :: k < m <= n ==> ops[m] != ClearOp(i);
          assert front[k] == SetOp(i) && forall m :: k < m < n ==> front[m] == ops[m];
        }
      }
    }
  }

  lemma ReplayNone()
    ensures Replay([]) == {}
  {
  }

  lemma ReplayOne(ops: seq<BitOp>)
    requires ops != []
    ensures var bits := Replay(ops[..|ops| - 1]);
      Replay(ops) == if ops[|ops| - 1].SetOp? then bits + {ops[|ops| - 1].i} else bits - {ops[|ops| - 1].i}
  {
  }

  lemma {:induction false} ReplayBound(ops: seq<BitOp>)
    ensures |Replay(ops)| <= |ops|
  {
    if ops != [] { ReplayBound(ops[..|ops| - 1]); }
  }

  /** Run a program on a new bitvec and test one number: sizes, forms and changes of form never show. */
  method RunProgram(iSize: nat, ops: seq<BitOp>, probe: nat) returns (r: bool)
    requires iSize < U32 && probe < U32 && (Fits(iSize) || |ops| <= MXHASH)
    requires forall k :: 0 <= k < |ops| ==> 1 <= ops[k].i <= iSize
    ensures r <==> SetAndNotCleared(ops, probe)
    ensures probe == 0 || probe > iSize ==> !r
  {
    hide SetAndNotCleared, Replay, Fits;
    var p := new Bitvec(iSize);
    assert ops[..0] == [];
    ReplayNone();
    for k := 0 to |ops|
      invariant p.Valid() && fresh(p.Repr) && p.Bits == Replay(ops[..k]) && p.iSize == iSize
    {
      assert ops[..k + 1][..k] == ops[..k] && ops[..k + 1][k] == ops[k];
      ReplayBound(ops[..k]);
      ReplayOne(ops[..k + 1]);
      match ops[k] {
        case SetOp(i) =>
          p.SafeWhileSmall();
          p.Set(i);
        case ClearOp(i) => p.Clear(i);
      }
    }
    assert ops[..|ops|] == ops;
    r := p.TestNotNull(probe);
    ReplayMeaning(ops, probe);
  }
}
