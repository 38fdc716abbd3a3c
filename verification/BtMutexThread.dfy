/**
  One thread's view of sqlcipher/src/btmutex.c, in the source's own imperative form: the routines over
  the fields wantToLock and locked of a connection's sharable Btrees.  Each routine is proved against
  the sequential effect that BtMutex's state machine is proved to have under every interleaving.
 */
module BtMutexThread {
  import opened BtMutex

  class Connection {
    const bts: seq<Addr>   // BtShared addresses, in pNext order
    const aDb: seq<Slot>   // db->aDb[]
    var want: seq<nat>
    var locked: seq<bool>
    var held: set<Addr>    // BtShared mutexes held by this thread
    ghost var ascending: bool  // every blocking enter so far was for an address above all held ones

    ghost predicate Shape()
      reads this
    {
      && |want| == |locked| == |bts|
      && (forall i, j :: 0 <= i < j < |bts| ==> bts[i] < bts[j])
      && (forall i :: 0 <= i < |aDb| && aDb[i].Shared? ==> aDb[i].k < |bts|)
      && (forall i, j :: 0 <= i < j < |aDb| && aDb[i].Shared? ==> aDb[i] != aDb[j])
    }

    /** held is exactly the set of addresses of the Btrees flagged locked. */
    ghost predicate HeldIsLocked()
      requires Shape()
      reads this
    {
      && (forall k :: 0 <= k < |bts| && locked[k] ==> bts[k] in held)
      && (forall x :: x in held ==> exists k :: 0 <= k < |bts| && locked[k] && bts[k] == x)
    }

    /** What holds between calls. */
    ghost predicate Valid()
      reads this
    {
      && Shape() && HeldIsLocked() && ascending
      && (forall k :: 0 <= k < |bts| ==> (locked[k] <==> want[k] > 0))
    }

    constructor (bts: seq<Addr>, aDb: seq<Slot>)
      requires forall i, j :: 0 <= i < j < |bts| ==> bts[i] < bts[j]
      requires forall i :: 0 <= i < |aDb| && aDb[i].Shared? ==> aDb[i].k < |bts|
      requires forall i, j :: 0 <= i < j < |aDb| && aDb[i].Shared? ==> aDb[i] != aDb[j]
      ensures Valid() && this.bts == bts && this.aDb == aDb
      ensures want == seq(|bts|, _ => 0) && held == {}
    {
      this.bts, this.aDb := bts, aDb;
      want, locked := seq(|bts|, _ => 0), seq(|bts|, _ => false);
      held, ascending := {}, true;
    }

    /** Taking a mutex that is free: pBt->mutex, then p->locked = 1. */
    method TakeMutex(k: nat)
      requires Shape() && HeldIsLocked() && k < |bts| && !locked[k]
      modifies this`locked, this`held
      ensures Shape() && HeldIsLocked()
      ensures locked == old(locked)[k := true]
    {
      held := held + {bts[k]};
      locked := locked[k := true];
      assert locked[k];
      forall x | x in held ensures exists i :: 0 <= i < |bts| && locked[i] && bts[i] == x {
        if x in old(held) {
          var i :| 0 <= i < |bts| && old(locked)[i] && bts[i] == x;
          assert locked[i];
        }
      }
    }

    /** lockBtreeMutex: the blocking acquisition. */
    method LockBtreeMutex(k: nat)
      requires Shape() && HeldIsLocked() && k < |bts| && !locked[k]
      modifies this`locked, this`held, this`ascending
      ensures Shape() && HeldIsLocked()
      ensures locked == old(locked)[k := true]
      ensures ascending == (old(ascending) && forall x :: x in old(held) ==> x < bts[k])
    {
      ascending := ascending && forall x :: x in held ==> x < bts[k];
      TakeMutex(k);
    }

    /** With only handles before the k-th locked, all held mutexes are below its mutex. */
    lemma HeldBelow(k: nat)
      requires Shape() && HeldIsLocked() && k < |bts| && forall i :: 0 <= i < |bts| && locked[i] ==> i < k
      ensures forall x :: x in held ==> x < bts[k]
    {
    }

    lemma LockedIsHeld(k: nat)
      requires Shape() && HeldIsLocked() && k < |bts| && locked[k]
      ensures bts[k] in held
    {
    }

    /** unlockBtreeMutex */
    method UnlockBtreeMutex(k: nat)
      requires Shape() && HeldIsLocked() && k < |bts| && locked[k]
      modifies this`locked, this`held
      ensures Shape() && HeldIsLocked()
      ensures locked == old(locked)[k := false]
    {
      held := held - {bts[k]};
      locked := locked[k := false];
      forall x | x in held ensures exists i :: 0 <= i < |bts| && locked[i] && bts[i] == x {
        var i :| 0 <= i < |bts| && old(locked)[i] && bts[i] == x;
        assert locked[i];
      }
    }

    /** btreeLockCarefully; `tryOk` is the outcome of sqlite3_mutex_try. */
    method BtreeLockCarefully(p: nat, tryOk: bool)
      requires Shape() && HeldIsLocked() && ascending && p < |bts|
      requires forall k :: 0 <= k < |bts| ==> (locked[k] <==> want[k] > 0 && k != p)
      requires want[p] > 0
      modifies this`locked, this`held, this`ascending
      ensures Valid()
    {
      hide HeldIsLocked;
      if tryOk {
        TakeMutex(p);
        return;
      }
      var later := p + 1;
      while later < |bts|
        invariant p < later <= |bts| && Shape() && HeldIsLocked() && ascending
        invariant forall k :: 0 <= k < |bts| ==> (locked[k] <==> want[k] > 0 && (k < p || k >= later))
      {
        if locked[later] {
          UnlockBtreeMutex(later);
        }
        later := later + 1;
      }
      HeldBelow(p);
      LockBtreeMutex(p);
      later := p + 1;
      while later < |bts|
        invariant p < later <= |bts| && Shape() && HeldIsLocked() && ascending
        invariant forall k :: 0 <= k < |bts| ==> (locked[k] <==> want[k] > 0 && k < later)
      {
        if want[later] > 0 {
          HeldBelow(later);
          LockBtreeMutex(later);
        }
        later := later + 1;
      }
    }

    /** sqlite3BtreeEnter on a sharable Btree: every blocking enter is for an address above all held. */
    method BtreeEnter(k: nat, tryOk: bool)
      requires Valid() && k < |bts|
      modifies this`want, this`locked, this`held, this`ascending
      ensures Valid()
      ensures CallsOk([EnterCall(k)], old(want)) && want == Effect([EnterCall(k)], old(want))
    {
      want := want[k := want[k] + 1];
      assert CallsOk([EnterCall(k)][1..], want);
      if locked[k] { return; }
      BtreeLockCarefully(k, tryOk);
    }

    /** sqlite3BtreeLeave on a sharable Btree. */
    method BtreeLeave(k: nat)
      requires Valid() && k < |bts| && want[k] > 0
      modifies this`want, this`locked, this`held
      ensures Valid()
      ensures CallsOk([LeaveCall(k)], old(want)) && want == Effect([LeaveCall(k)], old(want))
    {
      want := want[k := want[k] - 1];
      assert CallsOk([LeaveCall(k)][1..], want);
      if want[k] == 0 {
        UnlockBtreeMutex(k);
      }
    }

    /** sqlite3BtreeEnterAll; `tries[i]` is the outcome of the i-th sqlite3_mutex_try. */
    method BtreeEnterAll(tries: seq<bool>)
      requires Valid() && |tries| == |aDb|
      modifies this`want, this`locked, this`held, this`ascending
      ensures Valid()
      ensures CallsOk(CallsOver(aDb, true), old(want)) && want == Effect(CallsOver(aDb, true), old(want))
      ensures forall i :: 0 <= i < |aDb| && aDb[i].Shared? ==> bts[aDb[i].k] in held
    {
      hide HeldIsLocked;
      AllEffect(aDb, true, want);
      for i := 0 to |aDb|
        invariant Valid()
        invariant CallsOk(CallsOver(aDb[i..], true), want)
        invariant Effect(CallsOver(aDb[i..], true), want) == Effect(CallsOver(aDb, true), old(want))
      {
        assert aDb[i..][1..] == aDb[i + 1..];
        match aDb[i] {
          case NoMutex =>
          case Shared(k) =>
            assert CallsOver(aDb[i..], true)[1..] == CallsOver(aDb[i + 1..], true);
            UnitEffect(EnterCall(k), want);
            BtreeEnter(k, tries[i]);
        }
      }
      assert aDb[|aDb|..] == [];
      forall i | 0 <= i < |aDb| && aDb[i].Shared? ensures bts[aDb[i].k] in held {
        assert Shared(aDb[i].k) in aDb;
        LockedIsHeld(aDb[i].k);
      }
    }

    /** sqlite3BtreeLeaveAll */
    method BtreeLeaveAll()
      requires Valid() && forall i :: 0 <= i < |aDb| && aDb[i].Shared? ==> want[aDb[i].k] > 0
      modifies this`want, this`locked, this`held
      ensures Valid()
      ensures CallsOk(CallsOver(aDb, false), old(want)) && want == Effect(CallsOver(aDb, false), old(want))
    {
      hide HeldIsLocked;
      AllEffect(aDb, false, want);
      for i := 0 to |aDb|
        invariant Valid()
        invariant CallsOk(CallsOver(aDb[i..], false), want)
        invariant Effect(CallsOver(aDb[i..], false), want) == Effect(CallsOver(aDb, false), old(want))
      {
        assert aDb[i..][1..] == aDb[i + 1..];
        match aDb[i] {
          case NoMutex =>
          case Shared(k) =>
            assert CallsOver(aDb[i..], false)[1..] == CallsOver(aDb[i + 1..], false);
            UnitEffect(LeaveCall(k), want);
            BtreeLeave(k);
        }
      }
      assert aDb[|aDb|..] == [];
    }

    /** sqlite3BtreeHoldsAllMutexes, with the connection mutex held. */
    method HoldsAllMutexes() returns (all: bool)
      requires Valid()
      ensures all <==> forall i :: 0 <= i < |aDb| && aDb[i].Shared? ==> want[aDb[i].k] > 0 && bts[aDb[i].k] in held
    {
      for i := 0 to |aDb|
        invariant forall j :: 0 <= j < i && aDb[j].Shared? ==> want[aDb[j].k] > 0 && bts[aDb[j].k] in held
      {
        if aDb[i].Shared? && (want[aDb[i].k] == 0 || bts[aDb[i].k] !in held) {
          return false;
        }
      }
      return true;
    }
  }

  lemma UnitEffect(call: Call, want: seq<nat>)
    ensures CallsOk([call], want) ==>
      && Effect([call], want) ==
            (if call.EnterCall? then want[call.k := want[call.k] + 1] else want[call.k := want[call.k] - 1])
  {
    if CallsOk([call], want) {
      assert [call][1..] == [];
    }
  }
}
