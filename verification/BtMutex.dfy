/**
  The mutex protocol of shared B-trees (sqlcipher/src/btmutex.c) as a state machine over its steps.

  Any number of connections run concurrently, one thread each, every thread already holding its own
  connection mutex.  A connection's sharable Btrees form a list sorted by BtShared address; only the
  position in that list and the address matter here.  Each atomic step of one thread is one `RunStep`;
  `Invoke` starts a call.  Non-sharable Btrees need no mutex and appear only as `NoMutex` slots of aDb[].
 */
module BtMutex {

  import opened Common

  type Addr = nat

  /** One call made by the thread: sqlite3BtreeEnter or sqlite3BtreeLeave on the k-th sharable Btree. */
  datatype Call = EnterCall(k: nat) | LeaveCall(k: nat)

  datatype Op = Enter(k: nat) | Leave(k: nat) | EnterAll | LeaveAll

  datatype Slot = NoMutex | Shared(k: nat)

  /** Where the thread is inside sqlite3BtreeEnter / btreeLockCarefully. */
  datatype PC =
    | Ready                   // between calls
    | TryLock(p: nat)         // wantToLock raised, about to call sqlite3_mutex_try
    | Drop(p: nat, j: nat)    // releasing the later locks, j is the next one to look at
    | Block(p: nat)           // in sqlite3_mutex_enter for p itself
    | Retake(p: nat, j: nat)  // re-acquiring the later locks, j is the next one to look at
    | Unlock(p: nat)          // wantToLock has fallen to zero, about to call sqlite3_mutex_leave

  /** `goal` records what the counts must be once every call in `todo` has been made. */
  datatype Conn = Conn(bts: seq<Addr>, aDb: seq<Slot>, want: seq<nat>, locked: seq<bool>,
                       pc: PC, todo: seq<Call>, goal: seq<nat>)

  /** `owner` maps each held BtShared mutex to its thread, `db` is the field BtShared.db. */
  datatype System = System(conns: seq<Conn>, owner: map<Addr, nat>, db: map<Addr, nat>)

  // ---------------------------------------------------------------------------------------------
  // Steps

  function CallsOver(aDb: seq<Slot>, entering: bool): seq<Call> {
    if aDb == [] then []
    else
      var rest := CallsOver(aDb[1..], entering);
      match aDb[0]
      case NoMutex => rest
      case Shared(k) => [if entering then EnterCall(k) else LeaveCall(k)] + rest
  }

  function CallsOf(c: Conn, op: Op): seq<Call> {
    match op
    case Enter(k) => [EnterCall(k)]
    case Leave(k) => [LeaveCall(k)]
    case EnterAll => CallsOver(c.aDb, true)
    case LeaveAll => CallsOver(c.aDb, false)
  }

  /** Every call names an existing Btree and no Leave finds wantToLock at zero. */
  predicate CallsOk(todo: seq<Call>, want: seq<nat>) {
    todo == [] ||
    match todo[0]
    case EnterCall(k) => k < |want| && CallsOk(todo[1..], want[k := want[k] + 1])
    case LeaveCall(k) => k < |want| && want[k] > 0 && CallsOk(todo[1..], want[k := want[k] - 1])
  }

  /** The counts after all the calls of `todo`. */
  function Effect(todo: seq<Call>, want: seq<nat>): (r: seq<nat>)
    requires CallsOk(todo, want)
    ensures |r| == |want|
  {
    if todo == [] then want
    else
      match todo[0]
      case EnterCall(k) => Effect(todo[1..], want[k := want[k] + 1])
      case LeaveCall(k) => Effect(todo[1..], want[k := want[k] - 1])
  }

  predicate Idle(c: Conn) { c.pc == Ready && c.todo == [] }

  predicate ConnShape(c: Conn) {
    && |c.want| == |c.locked| == |c.bts| == |c.goal|
    && (forall i, j :: 0 <= i < j < |c.bts| ==> c.bts[i] < c.bts[j])
    && (forall i :: 0 <= i < |c.aDb| ==> c.aDb[i].Shared? ==> c.aDb[i].k < |c.bts|)
    && (forall i, j :: 0 <= i < j < |c.aDb| && c.aDb[i].Shared? ==> c.aDb[i] != c.aDb[j])
    && match c.pc
       case Ready => true
       case TryLock(p) => p < |c.bts|
       case Drop(p, j) => p < j <= |c.bts|
       case Block(p) => p < |c.bts|
       case Retake(p, j) => p < j <= |c.bts|
       case Unlock(p) => p < |c.bts|
  }

  function SetConn(s: System, c: nat, conn: Conn): System
    requires c < |s.conns|
  {
    s.(conns := s.conns[c := conn])
  }

  /** sqlite3_mutex_enter or a successful sqlite3_mutex_try on the k-th Btree, with pBt->db and locked. */
  function Acquire(s: System, c: nat, k: nat, pc: PC): System
    requires c < |s.conns| && ConnShape(s.conns[c]) && k < |s.conns[c].bts|
  {
    var conn := s.conns[c];
    System(s.conns[c := conn.(locked := conn.locked[k := true], pc := pc)],
           s.owner[conn.bts[k] := c], s.db[conn.bts[k] := c])
  }

  /** unlockBtreeMutex */
  function Release(s: System, c: nat, k: nat, pc: PC): System
    requires c < |s.conns| && ConnShape(s.conns[c]) && k < |s.conns[c].bts|
  {
    var conn := s.conns[c];
    System(s.conns[c := conn.(locked := conn.locked[k := false], pc := pc)],
           s.owner - {conn.bts[k]}, s.db)
  }

  /** lockBtreeMutex goes on after a failed sqlite3_mutex_try. */
  function GiveUpTrying(s: System, c: nat, p: nat): System
    requires c < |s.conns|
  {
    SetConn(s, c, s.conns[c].(pc := Drop(p, p + 1)))
  }

  /** The next atomic step of thread c; None when it is idle or its sqlite3_mutex_enter blocks. */
  function RunStep(s: System, c: nat): Option<System>
    requires c < |s.conns| && ConnShape(s.conns[c])
  {
    var conn := s.conns[c];
    match conn.pc
    case Ready =>
      if conn.todo == [] then None
      else (
        match conn.todo[0]
        case EnterCall(k) =>
          if k >= |conn.want| then None
          else
            var conn' := conn.(want := conn.want[k := conn.want[k] + 1], todo := conn.todo[1..]);
            Some(SetConn(s, c, if conn.locked[k] then conn' else conn'.(pc := TryLock(k))))
        case LeaveCall(k) =>
          if k >= |conn.want| || conn.want[k] == 0 then None
          else
            var conn' := conn.(want := conn.want[k := conn.want[k] - 1], todo := conn.todo[1..]);
            Some(SetConn(s, c, if conn'.want[k] == 0 then conn'.(pc := Unlock(k)) else conn'))
      )
    case TryLock(p) =>
      if conn.bts[p] !in s.owner then Some(Acquire(s, c, p, Ready))
      else Some(GiveUpTrying(s, c, p))
    case Drop(p, j) =>
      if j == |conn.bts| then Some(SetConn(s, c, conn.(pc := Block(p))))
      else if conn.locked[j] then Some(Release(s, c, j, Drop(p, j + 1)))
      else Some(SetConn(s, c, conn.(pc := Drop(p, j + 1))))
    case Block(p) =>
      if conn.bts[p] in s.owner then None
      else Some(Acquire(s, c, p, Retake(p, p + 1)))
    case Retake(p, j) =>
      if j == |conn.bts| then Some(SetConn(s, c, conn.(pc := Ready)))
      else if conn.want[j] == 0 then Some(SetConn(s, c, conn.(pc := Retake(p, j + 1))))
      else if conn.bts[j] in s.owner then None
      else Some(Acquire(s, c, j, Retake(p, j + 1)))
    case Unlock(p) => Some(Release(s, c, p, Ready))
  }

  /** An idle thread may start any call whose Leaves are matched by earlier Enters. */
  predicate CanInvoke(conn: Conn, op: Op) {
    Idle(conn) && CallsOk(CallsOf(conn, op), conn.want)
  }

  function Invoke(s: System, c: nat, op: Op): System
    requires c < |s.conns| && CanInvoke(s.conns[c], op)
  {
    var conn := s.conns[c];
    var calls := CallsOf(conn, op);
    SetConn(s, c, conn.(todo := calls, goal := Effect(calls, conn.want)))
  }

  /** TryFails: sqlite3_mutex_try may report that a mutex is busy when nobody owns it. */
  datatype Action = Start(op: Op) | Run | TryFails

  /** One step of the whole system: thread c performs `a`. */
  ghost predicate Step(s: System, c: nat, a: Action, s': System) {
    && c < |s.conns|
    && ConnShape(s.conns[c])
    && match a
       case Start(op) => CanInvoke(s.conns[c], op) && s' == Invoke(s, c, op)
       case Run => RunStep(s, c) == Some(s')
       case TryFails => s.conns[c].pc.TryLock? && s' == GiveUpTrying(s, c, s.conns[c].pc.p)
  }

  ghost predicate Initial(s: System) {
    && s.owner == map[]
    && forall c :: 0 <= c < |s.conns| ==>
         var conn := s.conns[c];
         && ConnShape(conn) && Idle(conn) && conn.goal == conn.want
         && forall k :: 0 <= k < |conn.want| ==> conn.want[k] == 0 && !conn.locked[k]
  }

  /** A run: states[i+1] follows from states[i] by one step of some thread. */
  ghost predicate IsRun(states: seq<System>) {
    && |states| > 0
    && Initial(states[0])
    && forall i: nat :: i + 1 < |states| ==> StepAt(states, i)
  }

  ghost predicate StepAt(states: seq<System>, i: nat)
    requires i + 1 < |states|
  {
    StepsTo(states[i], states[i + 1])
  }

  ghost predicate StepsTo(s: System, s': System) {
    exists c, a :: Step(s, c, a, s')
  }

  // ---------------------------------------------------------------------------------------------
  // The invariant

  /** Which mutexes the thread holds, given its counts and where it is. */
  predicate Holds(c: Conn, k: nat)
    requires k < |c.want|
  {
    match c.pc
    case Ready => c.want[k] > 0
    case TryLock(p) => c.want[k] > 0 && k != p
    case Drop(p, j) => c.want[k] > 0 && (k < p || k >= j)
    case Block(p) => c.want[k] > 0 && k < p
    case Retake(p, j) => c.want[k] > 0 && k < j
    case Unlock(p) => c.want[k] > 0 || k == p
  }

  predicate ConnInv(c: Conn) {
    && ConnShape(c)
    && (c.pc.Unlock? ==> c.want[c.pc.p] == 0)
    && (!c.pc.Ready? && !c.pc.Unlock? ==> c.want[c.pc.p] > 0)
    && (forall k :: 0 <= k < |c.want| ==> c.locked[k] == Holds(c, k))
    && CallsOk(c.todo, c.want)
    && Effect(c.todo, c.want) == c.goal
  }

  /** locked == mutex held, and then BtShared.db is this connection. */
  predicate OwnsLocked(s: System, c: nat)
    requires c < |s.conns| && ConnShape(s.conns[c])
  {
    var conn := s.conns[c];
    forall k :: 0 <= k < |conn.bts| && conn.locked[k] ==>
      && conn.bts[k] in s.owner && s.owner[conn.bts[k]] == c
      && conn.bts[k] in s.db && s.db[conn.bts[k]] == c
  }

  predicate OwnerLocked(s: System, x: Addr)
    requires x in s.owner
  {
    s.owner[x] < |s.conns| &&
    var conn := s.conns[s.owner[x]];
    ConnShape(conn) && exists k :: 0 <= k < |conn.bts| && conn.bts[k] == x && conn.locked[k]
  }

  /** The mutex table and the `locked` flags agree. */
  ghost predicate LockInv(s: System) {
    && (forall c :: 0 <= c < |s.conns| ==> ConnShape(s.conns[c]) && OwnsLocked(s, c))
    && (forall x :: x in s.owner ==> OwnerLocked(s, x))
  }

  ghost predicate Inv(s: System) {
    && LockInv(s)
    && (forall c :: 0 <= c < |s.conns| ==> ConnInv(s.conns[c]))
  }

  lemma InitialInv(s: System)
    requires Initial(s)
    ensures Inv(s)
  {}

  /** Steps that touch no mutex. */
  lemma LocalKeepsLocks(s: System, c: nat, conn: Conn)
    requires LockInv(s) && c < |s.conns|
    requires ConnShape(conn) && conn.bts == s.conns[c].bts && conn.locked == s.conns[c].locked
    ensures LockInv(SetConn(s, c, conn))
  {
    var s' := SetConn(s, c, conn);
    forall d | 0 <= d < |s'.conns| ensures OwnsLocked(s', d) {
      assert OwnsLocked(s, d);
    }
    forall x | x in s'.owner ensures OwnerLocked(s', x) {
      assert OwnerLocked(s, x);
    }
  }

  /** Taking a free mutex disturbs no other locked handle. */
  lemma AcquireKeepsOthers(s: System, c: nat, k: nat, pc: PC, d: nat)
    requires LockInv(s) && c < |s.conns| && k < |s.conns[c].bts| && s.conns[c].bts[k] !in s.owner
    requires ConnShape(s.conns[c].(pc := pc)) && d < |s.conns|
    ensures ConnShape(Acquire(s, c, k, pc).conns[d]) && OwnsLocked(Acquire(s, c, k, pc), d)
  {
    assert OwnsLocked(s, d);
  }

  lemma AcquireKeepsLocks(s: System, c: nat, k: nat, pc: PC)
    requires LockInv(s) && c < |s.conns| && k < |s.conns[c].bts| && s.conns[c].bts[k] !in s.owner
    requires ConnShape(s.conns[c].(pc := pc))
    ensures LockInv(Acquire(s, c, k, pc))
  {
    var s' := Acquire(s, c, k, pc);
    forall d | 0 <= d < |s'.conns| ensures ConnShape(s'.conns[d]) && OwnsLocked(s', d) {
      AcquireKeepsOthers(s, c, k, pc, d);
    }
    forall x | x in s'.owner ensures OwnerLocked(s', x) {
      AcquireKeepsOthers(s, c, k, pc, s'.owner[x]);
      if x == s.conns[c].bts[k] {
        assert s'.conns[c].locked[k];
      } else {
        var i := OwnerIndex(s, x);
        assert s'.conns[s'.owner[x]].locked[i];
      }
    }
  }

  lemma OwnerIndex(s: System, x: Addr) returns (i: nat)
    requires LockInv(s) && x in s.owner
    ensures s.owner[x] < |s.conns|
    ensures i < |s.conns[s.owner[x]].bts| == |s.conns[s.owner[x]].locked|
    ensures s.conns[s.owner[x]].bts[i] == x && s.conns[s.owner[x]].locked[i]
  {
    assert OwnerLocked(s, x);
    i :| 0 <= i < |s.conns[s.owner[x]].bts| && s.conns[s.owner[x]].bts[i] == x && s.conns[s.owner[x]].locked[i];
  }

  /** No other locked handle of any thread uses the mutex being released. */
  lemma ReleaseKeepsOthers(s: System, c: nat, k: nat, pc: PC, d: nat)
    requires LockInv(s) && c < |s.conns| && k < |s.conns[c].bts| && s.conns[c].locked[k] && d < |s.conns|
    requires ConnShape(s.conns[c].(pc := pc))
    ensures ConnShape(Release(s, c, k, pc).conns[d]) && OwnsLocked(Release(s, c, k, pc), d)
  {
    assert OwnsLocked(s, c) && OwnsLocked(s, d);
  }

  lemma ReleaseKeepsLocks(s: System, c: nat, k: nat, pc: PC)
    requires LockInv(s) && c < |s.conns| && k < |s.conns[c].bts| && s.conns[c].locked[k]
    requires ConnShape(s.conns[c].(pc := pc))
    ensures LockInv(Release(s, c, k, pc))
  {
    var s' := Release(s, c, k, pc);
    forall d | 0 <= d < |s'.conns| ensures ConnShape(s'.conns[d]) && OwnsLocked(s', d) {
      ReleaseKeepsOthers(s, c, k, pc, d);
    }
    forall x | x in s'.owner ensures OwnerLocked(s', x) {
      var i := OwnerIndex(s, x);
      ReleaseKeepsOthers(s, c, k, pc, s.owner[x]);
      assert s'.conns[s'.owner[x]].locked[i];
    }
  }

  /** Starting a call keeps the thread's own invariant. */
  lemma StartKeepsConn(s: System, c: nat, op: Op)
    requires c < |s.conns| && ConnInv(s.conns[c]) && CanInvoke(s.conns[c], op)
    ensures Invoke(s, c, op) == SetConn(s, c, Invoke(s, c, op).conns[c])
    ensures ConnInv(Invoke(s, c, op).conns[c])
  {
    hide CallsOf, CallsOk, Effect;
  }

  /** So does making the next one of a list of calls. */
  lemma CallKeepsConn(s: System, c: nat, s': System)
    requires c < |s.conns| && ConnInv(s.conns[c]) && s.conns[c].pc.Ready? && RunStep(s, c) == Some(s')
    ensures s' == SetConn(s, c, s'.conns[c])
    ensures ConnInv(s'.conns[c]) && s'.conns[c].bts == s.conns[c].bts && s'.conns[c].locked == s.conns[c].locked
  {}

  lemma LockKeepsConn(c: Conn, k: nat, pc: PC)
    requires ConnInv(c) && k < |c.bts| && ConnShape(c.(pc := pc))
    requires (c.pc == TryLock(k) && pc == Ready) || (c.pc == Block(k) && pc == Retake(k, k + 1))
      || (c.pc.Retake? && k == c.pc.j && c.want[k] > 0 && pc == Retake(c.pc.p, k + 1))
    ensures ConnInv(c.(locked := c.locked[k := true], pc := pc))
  {}

  lemma UnlockKeepsConn(c: Conn, k: nat, pc: PC)
    requires ConnInv(c) && k < |c.bts| && ConnShape(c.(pc := pc))
    requires (c.pc == Unlock(k) && pc == Ready) || (c.pc.Drop? && k == c.pc.j && pc == Drop(c.pc.p, k + 1))
    ensures ConnInv(c.(locked := c.locked[k := false], pc := pc))
  {}

  lemma SkipKeepsConn(c: Conn, pc: PC)
    requires ConnInv(c) && ConnShape(c.(pc := pc))
    requires match c.pc
             case TryLock(p) => pc == Drop(p, p + 1)
             case Drop(p, j) => if j == |c.bts| then pc == Block(p) else !c.locked[j] && pc == Drop(p, j + 1)
             case Retake(p, j) => if j == |c.bts| then pc == Ready else c.want[j] == 0 && pc == Retake(p, j + 1)
             case _ => false
    ensures ConnInv(c.(pc := pc))
  {}

  lemma TakeStep(s: System, c: nat, k: nat, pc: PC)
    requires Inv(s) && c < |s.conns| && k < |s.conns[c].bts| && s.conns[c].bts[k] !in s.owner
    requires ConnInv(s.conns[c].(locked := s.conns[c].locked[k := true], pc := pc))
    ensures Inv(Acquire(s, c, k, pc))
  {
    AcquireKeepsLocks(s, c, k, pc);
  }

  lemma GiveStep(s: System, c: nat, k: nat, pc: PC)
    requires Inv(s) && c < |s.conns| && k < |s.conns[c].bts| && s.conns[c].locked[k]
    requires ConnInv(s.conns[c].(locked := s.conns[c].locked[k := false], pc := pc))
    ensures Inv(Release(s, c, k, pc))
  {
    ReleaseKeepsLocks(s, c, k, pc);
  }

  lemma LocalStep(s: System, c: nat, conn: Conn)
    requires Inv(s) && c < |s.conns| && ConnInv(conn)
    requires conn.bts == s.conns[c].bts && conn.locked == s.conns[c].locked
    ensures Inv(SetConn(s, c, conn))
  {
    LocalKeepsLocks(s, c, conn);
  }

  lemma DropKeepsInv(s: System, c: nat, s': System)
    requires Inv(s) && c < |s.conns| && s.conns[c].pc.Drop? && RunStep(s, c) == Some(s')
    ensures Inv(s')
  {
    hide LockInv, Effect, CallsOk, Holds, Acquire, Release, SetConn;
    var conn := s.conns[c];
    var p, j := conn.pc.p, conn.pc.j;
    var next := if j == |conn.bts| then Block(p) else Drop(p, j + 1);
    if j < |conn.bts| && conn.locked[j] {
      UnlockKeepsConn(conn, j, next);
      GiveStep(s, c, j, next);
    } else {
      SkipKeepsConn(conn, next);
      LocalStep(s, c, conn.(pc := next));
    }
  }

  lemma RetakeKeepsInv(s: System, c: nat, s': System)
    requires Inv(s) && c < |s.conns| && s.conns[c].pc.Retake? && RunStep(s, c) == Some(s')
    ensures Inv(s')
  {
    hide LockInv, Effect, CallsOk, Holds, Acquire, Release, SetConn;
    var conn := s.conns[c];
    var p, j := conn.pc.p, conn.pc.j;
    var next := if j == |conn.bts| then Ready else Retake(p, j + 1);
    if j < |conn.bts| && conn.want[j] > 0 {
      LockKeepsConn(conn, j, next);
      TakeStep(s, c, j, next);
    } else {
      SkipKeepsConn(conn, next);
      LocalStep(s, c, conn.(pc := next));
    }
  }

  lemma OneMutexKeepsInv(s: System, c: nat, s': System)
    requires Inv(s) && c < |s.conns| && RunStep(s, c) == Some(s')
    requires s.conns[c].pc.TryLock? || s.conns[c].pc.Block? || s.conns[c].pc.Unlock?
    ensures Inv(s')
  {
    hide LockInv, Effect, CallsOk, Acquire, Release, SetConn;
    var conn := s.conns[c];
    var p := conn.pc.p;
    if conn.pc.Unlock? {
      UnlockKeepsConn(conn, p, Ready);
      GiveStep(s, c, p, Ready);
    } else if conn.bts[p] in s.owner {
      SkipKeepsConn(conn, Drop(p, p + 1));
      LocalStep(s, c, conn.(pc := Drop(p, p + 1)));
    } else {
      var next := if conn.pc.TryLock? then Ready else Retake(p, p + 1);
      LockKeepsConn(conn, p, next);
      TakeStep(s, c, p, next);
    }
  }

  lemma StepKeepsInv(s: System, c: nat, a: Action, s': System)
    requires Inv(s) && Step(s, c, a, s')
    ensures Inv(s')
  {
    hide LockInv, Effect, CallsOk, Holds, Acquire, Release;
    if a.Start? {
      StartKeepsConn(s, c, a.op);
      LocalStep(s, c, s'.conns[c]);
    } else if s.conns[c].pc.Ready? {
      CallKeepsConn(s, c, s');
      LocalStep(s, c, s'.conns[c]);
    } else if a.TryFails? {
      var conn, p := s.conns[c], s.conns[c].pc.p;
      SkipKeepsConn(conn, Drop(p, p + 1));
      LocalStep(s, c, conn.(pc := Drop(p, p + 1)));
    } else if s.conns[c].pc.Drop? {
      DropKeepsInv(s, c, s');
    } else if s.conns[c].pc.Retake? {
      RetakeKeepsInv(s, c, s');
    } else {
      OneMutexKeepsInv(s, c, s');
    }
  }

  /** Every state of every run satisfies the invariant. */
  lemma {:induction false} RunKeepsInv(states: seq<System>, i: nat)
    requires IsRun(states) && i < |states|
    ensures Inv(states[i])
  {
    if i == 0 {
      InitialInv(states[0]);
    } else {
      RunKeepsInv(states, i - 1);
      assert StepAt(states, i - 1);
      var c, a :| Step(states[i - 1], c, a, states[i]);
      StepKeepsInv(states[i - 1], c, a, states[i]);
    }
  }

  // ---------------------------------------------------------------------------------------------
  // Freedom from deadlock

  /** Thread c sits in sqlite3_mutex_enter for a mutex that is taken. */
  predicate Waiting(s: System, c: nat)
    requires c < |s.conns| && ConnShape(s.conns[c])
  {
    var conn := s.conns[c];
    match conn.pc
    case Block(p) => conn.bts[p] in s.owner
    case Retake(p, j) => j < |conn.bts| && conn.want[j] > 0 && conn.bts[j] in s.owner
    case _ => false
  }

  function WaitAddr(s: System, c: nat): (x: Addr)
    requires c < |s.conns| && ConnShape(s.conns[c]) && Waiting(s, c)
    ensures x in s.owner
  {
    var conn := s.conns[c];
    if conn.pc.Block? then conn.bts[conn.pc.p] else conn.bts[conn.pc.j]
  }

  ghost predicate WaitsFor(s: System, c: nat, d: nat)
    requires Inv(s)
  {
    c < |s.conns| && Waiting(s, c) && s.owner[WaitAddr(s, c)] == d
  }

  /** A blocked thread holds only mutexes of smaller address than the one it waits for. */
  lemma BlockedHoldsSmaller(s: System, c: nat, x: Addr)
    requires Inv(s) && c < |s.conns| && Waiting(s, c) && x in s.owner && s.owner[x] == c
    ensures x < WaitAddr(s, c)
  {
    var k := OwnerIndex(s, x);
    assert ConnInv(s.conns[c]) && Holds(s.conns[c], k);
  }

  /** Along the wait-for relation the awaited addresses strictly increase. */
  lemma WaitAddrIncreases(s: System, c: nat, d: nat)
    requires Inv(s) && WaitsFor(s, c, d) && d < |s.conns| && Waiting(s, d)
    ensures WaitAddr(s, c) < WaitAddr(s, d)
  {
    BlockedHoldsSmaller(s, d, WaitAddr(s, c));
  }

  ghost predicate IsWaitChain(s: System, chain: seq<nat>)
    requires Inv(s)
  {
    |chain| > 0 && forall i :: 0 <= i < |chain| - 1 ==> WaitsFor(s, chain[i], chain[i + 1])
  }

  lemma {:induction false} ChainIncreases(s: System, chain: seq<nat>, i: nat)
    requires Inv(s) && IsWaitChain(s, chain) && 0 < i < |chain| && chain[i] < |s.conns| && Waiting(s, chain[i])
    ensures WaitsFor(s, chain[0], chain[1]) && WaitAddr(s, chain[0]) < WaitAddr(s, chain[i])
  {
    assert WaitsFor(s, chain[0], chain[0 + 1]);
    assert WaitsFor(s, chain[i - 1], chain[i - 1 + 1]);
    WaitAddrIncreases(s, chain[i - 1], chain[i]);
    if i > 1 { ChainIncreases(s, chain, i - 1); }
  }

  /** The wait-for graph has no cycle. */
  lemma NoWaitCycle(s: System, chain: seq<nat>)
    requires Inv(s) && IsWaitChain(s, chain) && |chain| > 1
    ensures chain[0] != chain[|chain| - 1]
  {
    if chain[0] == chain[|chain| - 1] {
      assert WaitsFor(s, chain[0], chain[0 + 1]);
      ChainIncreases(s, chain, |chain| - 1);
    }
  }

  /** Thread c can move: its next step is enabled, or it is between calls and may leave a Btree it holds. */
  ghost predicate CanMove(s: System, c: nat)
    requires c < |s.conns| && ConnShape(s.conns[c])
  {
    || RunStep(s, c).Some?
    || exists k :: 0 <= k < |s.conns[c].want| && CanInvoke(s.conns[c], Leave(k))
  }

  /** A thread inside a call is either waiting for a taken mutex or able to step. */
  lemma NotWaitingRuns(s: System, c: nat)
    requires Inv(s) && c < |s.conns| && !Idle(s.conns[c])
    ensures RunStep(s, c).Some? <==> !Waiting(s, c)
  {
    assert ConnInv(s.conns[c]);
  }

  lemma OwnerMovesOrWaits(s: System, x: Addr)
    requires Inv(s) && x in s.owner
    ensures s.owner[x] < |s.conns|
    ensures Waiting(s, s.owner[x]) || CanMove(s, s.owner[x])
  {
    var k := OwnerIndex(s, x);
    var d := s.owner[x];
    var conn := s.conns[d];
    assert ConnInv(conn);
    if Idle(conn) {
      assert Holds(conn, k) && CallsOk([], conn.want[k := conn.want[k] - 1]);
      assert CallsOf(conn, Leave(k))[1..] == [];
      assert CanInvoke(conn, Leave(k));
    } else {
      NotWaitingRuns(s, d);
    }
  }

  function HeldAbove(s: System, x: Addr): set<Addr> {
    set y | y in s.owner.Keys && y > x
  }

  /** From every blocked thread the wait-for chain ends in a thread that can move. */
  lemma {:induction false} BlockedReachesMover(s: System, c: nat) returns (chain: seq<nat>)
    requires Inv(s) && c < |s.conns| && Waiting(s, c)
    ensures IsWaitChain(s, chain) && chain[0] == c && |chain| > 1
    ensures chain[|chain| - 1] < |s.conns|
    ensures !Waiting(s, chain[|chain| - 1]) && CanMove(s, chain[|chain| - 1])
    decreases HeldAbove(s, WaitAddr(s, c))
  {
    var x := WaitAddr(s, c);
    var d := s.owner[x];
    OwnerMovesOrWaits(s, x);
    assert WaitsFor(s, c, d);
    if Waiting(s, d) {
      WaitAddrIncreases(s, c, d);
      assert WaitAddr(s, d) in HeldAbove(s, x) - HeldAbove(s, WaitAddr(s, d));
      var rest := BlockedReachesMover(s, d);
      chain := [c] + rest;
    } else {
      chain := [c, d];
    }
  }

  /** No reachable state is a deadlock: a wait cycle is impossible and some thread always can move. */
  lemma NoDeadlock(states: seq<System>, i: nat, c: nat)
    requires IsRun(states) && i < |states| && c < |states[i].conns|
    ensures Inv(states[i])
    ensures !Idle(states[i].conns[c]) ==> exists d :: 0 <= d < |states[i].conns| && CanMove(states[i], d)
    ensures forall chain :: IsWaitChain(states[i], chain) && |chain| > 1 ==> chain[0] != chain[|chain| - 1]
  {
    RunKeepsInv(states, i);
    var s := states[i];
    if !Idle(s.conns[c]) {
      if Waiting(s, c) {
        var chain := BlockedReachesMover(s, c);
        assert CanMove(s, chain[|chain| - 1]);
      } else {
        NotWaitingRuns(s, c);
        assert CanMove(s, c);
      }
    }
    forall chain | IsWaitChain(s, chain) && |chain| > 1 ensures chain[0] != chain[|chain| - 1] {
      NoWaitCycle(s, chain);
    }
  }

  // ---------------------------------------------------------------------------------------------
  // What a completed call has done

  /** sqlite3BtreeHoldsAllMutexes, for a thread that holds its connection mutex. */
  predicate HoldsAllMutexes(s: System, c: nat)
    requires c < |s.conns| && ConnShape(s.conns[c])
  {
    var conn := s.conns[c];
    forall i :: 0 <= i < |conn.aDb| && conn.aDb[i].Shared? ==>
      && conn.want[conn.aDb[i].k] > 0
      && conn.bts[conn.aDb[i].k] in s.owner && s.owner[conn.bts[conn.aDb[i].k]] == c
  }

  predicate SameTask(x: Conn, y: Conn) {
    y.goal == x.goal && y.bts == x.bts && y.aDb == x.aDb
  }

  lemma RunKeepsTask(s: System, c: nat, d: nat)
    requires c < |s.conns| && ConnShape(s.conns[c]) && d < |s.conns| && RunStep(s, c).Some?
    ensures |RunStep(s, c).value.conns| == |s.conns|
    ensures SameTask(s.conns[d], RunStep(s, c).value.conns[d])
  {}

  lemma StepKeepsTask(s: System, s': System, c: nat)
    requires StepsTo(s, s') && c < |s.conns| && !Idle(s.conns[c])
    ensures |s'.conns| == |s.conns| && SameTask(s.conns[c], s'.conns[c])
  {
    var t, a :| Step(s, t, a, s');
    if a.Run? { RunKeepsTask(s, t, c); }
  }

  lemma {:induction false} GoalUntilIdle(states: seq<System>, i: nat, j: nat, c: nat)
    requires IsRun(states) && i <= j < |states| && c < |states[i].conns|
    requires forall m :: i <= m < j ==> c < |states[m].conns| && !Idle(states[m].conns[c])
    ensures |states[j].conns| == |states[i].conns|
    ensures SameTask(states[i].conns[c], states[j].conns[c])
    decreases j - i
  {
    if i < j {
      GoalUntilIdle(states, i, j - 1, c);
      assert StepAt(states, j - 1);
      StepKeepsTask(states[j - 1], states[j], c);
    }
  }

  /** EnterAll adds one to the count of every Btree in aDb[] and LeaveAll takes one away. */
  lemma {:induction false} AllEffect(aDb: seq<Slot>, entering: bool, want: seq<nat>)
    requires forall i :: 0 <= i < |aDb| && aDb[i].Shared? ==> aDb[i].k < |want|
    requires forall i, j :: 0 <= i < j < |aDb| && aDb[i].Shared? ==> aDb[i] != aDb[j]
    requires !entering ==> forall i :: 0 <= i < |aDb| && aDb[i].Shared? ==> want[aDb[i].k] > 0
    ensures CallsOk(CallsOver(aDb, entering), want)
    ensures forall k :: 0 <= k < |want| ==>
        (Effect(CallsOver(aDb, entering), want)[k]
         == want[k] + (if Shared(k) !in aDb then 0 else if entering then 1 else -1))
  {
    if aDb != [] {
      var calls := CallsOver(aDb, entering);
      match aDb[0] {
        case NoMutex =>
          AllEffect(aDb[1..], entering, want);
        case Shared(k) =>
          var want' := want[k := want[k] + (if entering then 1 else -1)];
          assert calls[1..] == CallsOver(aDb[1..], entering);
          AllEffect(aDb[1..], entering, want');
          assert Shared(k) !in aDb[1..];
      }
    }
  }

  /** LeaveAll is called only when each Btree in aDb[] is wanted. */
  lemma {:induction false} LeaveAllNeedsAll(aDb: seq<Slot>, want: seq<nat>)
    requires forall i, j :: 0 <= i < j < |aDb| && aDb[i].Shared? ==> aDb[i] != aDb[j]
    requires CallsOk(CallsOver(aDb, false), want)
    ensures forall i :: 0 <= i < |aDb| && aDb[i].Shared? ==> aDb[i].k < |want| && want[aDb[i].k] > 0
  {
    if aDb != [] {
      var calls := CallsOver(aDb, false);
      var rest := aDb[1..];
      match aDb[0] {
        case NoMutex =>
          LeaveAllNeedsAll(rest, want);
        case Shared(k) =>
          assert calls[0] == LeaveCall(k) && calls[1..] == CallsOver(rest, false);
          LeaveAllNeedsAll(rest, want[k := want[k] - 1]);
          assert forall i :: 0 <= i < |rest| ==> rest[i] != aDb[0];
      }
      forall i | 0 <= i < |aDb| && aDb[i].Shared? ensures aDb[i].k < |want| && want[aDb[i].k] > 0 {
        if i > 0 { assert rest[i - 1] == aDb[i]; }
      }
    }
  }

  /** What a call adds to the count of Btree k. */
  function Added(op: Op, aDb: seq<Slot>, k: nat): int {
    if op == Enter(k) || (op == EnterAll && Shared(k) in aDb) then 1
    else if op == Leave(k) || (op == LeaveAll && Shared(k) in aDb) then -1
    else 0
  }

  /** The sequential effect of a call on the counts. */
  lemma EffectOfCall(x: Conn, op: Op)
    requires ConnShape(x) && CallsOk(CallsOf(x, op), x.want)
    ensures forall k: nat :: k < |x.want| ==>
      Effect(CallsOf(x, op), x.want)[k] == x.want[k] + Added(op, x.aDb, k)
  {
    match op {
      case Enter(e) => assert [EnterCall(e)][1..] == [];
      case Leave(e) => assert [LeaveCall(e)][1..] == [];
      case EnterAll => AllEffect(x.aDb, true, x.want);
      case LeaveAll =>
        LeaveAllNeedsAll(x.aDb, x.want);
        AllEffect(x.aDb, false, x.want);
    }
  }

  /**
    A call started at state i and finished at state j, with any steps of any threads in between: Enter(k) has
    added one to the count of k and Leave(k) has taken one away, EnterAll and LeaveAll have done so for each
    Btree in aDb[], and the other counts are as they were.  Btree k is then locked exactly when its count is
    positive, exactly when the thread holds its mutex, and BtShared.db names this connection.
   */
  lemma CallTakesEffect(states: seq<System>, i: nat, j: nat, c: nat, op: Op)
    requires IsRun(states) && i < j < |states| && Step(states[i], c, Start(op), states[i + 1])
    requires forall m :: i < m < j ==> c < |states[m].conns| && !Idle(states[m].conns[c])
    requires c < |states[j].conns| && Idle(states[j].conns[c])
    ensures var x, y := states[i].conns[c], states[j].conns[c];
            && ConnInv(y) && Inv(states[j]) && y.bts == x.bts && y.aDb == x.aDb && |y.want| == |x.want|
            && forall k: nat :: k < |x.want| ==> y.want[k] == x.want[k] + Added(op, x.aDb, k)
    ensures forall k :: 0 <= k < |states[j].conns[c].bts| ==> SettledAt(states[j], c, k)
  {
    RunKeepsInv(states, i);
    GoalUntilIdle(states, i + 1, j, c);
    RunKeepsInv(states, j);
    EffectOfCall(states[i].conns[c], op);
    var y := states[j].conns[c];
    assert ConnInv(y) && OwnsLocked(states[j], c);
    forall k | 0 <= k < |y.bts| ensures SettledAt(states[j], c, k) {
      assert y.locked[k] == Holds(y, k);
      if y.bts[k] in states[j].owner && states[j].owner[y.bts[k]] == c {
        var m := OwnerIndex(states[j], y.bts[k]);
        assert m == k;
      }
    }
  }

  predicate SettledAt(s: System, c: nat, k: nat)
    requires c < |s.conns| && ConnShape(s.conns[c]) && k < |s.conns[c].bts|
  {
    var conn := s.conns[c];
    && (conn.locked[k] <==> conn.want[k] > 0)
    && (conn.locked[k] <==> conn.bts[k] in s.owner && s.owner[conn.bts[k]] == c)
    && (conn.locked[k] ==> conn.bts[k] in s.db && s.db[conn.bts[k]] == c)
  }

  /** When sqlite3BtreeEnterAll returns, sqlite3BtreeHoldsAllMutexes is true. */
  lemma EnterAllHoldsAll(states: seq<System>, i: nat, j: nat, c: nat)
    requires IsRun(states) && i < j < |states| && Step(states[i], c, Start(EnterAll), states[i + 1])
    requires forall m :: i < m < j ==> c < |states[m].conns| && !Idle(states[m].conns[c])
    requires c < |states[j].conns| && Idle(states[j].conns[c])
    ensures ConnShape(states[j].conns[c]) && HoldsAllMutexes(states[j], c)
  {
    CallTakesEffect(states, i, j, c, EnterAll);
    var x := states[i].conns[c];
    forall m | 0 <= m < |x.aDb| && x.aDb[m].Shared?
      ensures states[j].conns[c].want[x.aDb[m].k] > 0 && SettledAt(states[j], c, x.aDb[m].k)
    {
      assert Shared(x.aDb[m].k) == x.aDb[m];
    }
  }

  /** LeaveAll undoes EnterAll, and Leave(k) undoes Enter(k), from any counts. */
  lemma LeaveUndoesEnter(c: Conn, k: nat)
    requires ConnShape(c)
    ensures CallsOk(CallsOf(c, EnterAll), c.want)
    ensures CallsOk(CallsOf(c, LeaveAll), Effect(CallsOf(c, EnterAll), c.want))
    ensures Effect(CallsOf(c, LeaveAll), Effect(CallsOf(c, EnterAll), c.want)) == c.want
    ensures k < |c.want| ==>
      && CallsOk([EnterCall(k)], c.want)
      && CallsOk([LeaveCall(k)], Effect([EnterCall(k)], c.want))
      && Effect([LeaveCall(k)], Effect([EnterCall(k)], c.want)) == c.want
  {
    AllEffect(c.aDb, true, c.want);
    var up := Effect(CallsOver(c.aDb, true), c.want);
    forall i | 0 <= i < |c.aDb| && c.aDb[i].Shared? ensures up[c.aDb[i].k] > 0 {
      assert Shared(c.aDb[i].k) == c.aDb[i];
    }
    AllEffect(c.aDb, false, up);
    if k < |c.want| {
      var w := c.want[k := c.want[k] + 1];
      assert CallsOk([], w) && CallsOk([], w[k := w[k] - 1]);
      assert [EnterCall(k)][1..] == [] && [LeaveCall(k)][1..] == [];
      assert Effect([EnterCall(k)], c.want) == w;
      assert w[k := w[k] - 1] == c.want;
    }
  }
}
