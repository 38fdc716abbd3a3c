/**
  destroyTable and sqlite3RootPageMoved of sqlcipher/src/build.c: the order in which the root pages of a
  dropped table and its indices are destroyed, and what that does to a database in which each destroy
  moves the largest root page into the freed slot (auto-vacuum).
 */
module DropTable {

  // ---------------------------------------------------------------------------------------------
  // The order of the OP_Destroy opcodes

  predicate StrictlyDecreasing(s: seq<nat>) {
    forall i, j :: 0 <= i < j < |s| ==> s[i] > s[j]
  }

  function Roots(iTab: nat, indices: seq<nat>): set<nat> {
    {iTab} + set i | 0 <= i < |indices| :: indices[i]
  }

  /** destroyTable: the operands of the OP_Destroy opcodes it emits, in order. */
  method DestroyTable(iTab: nat, indices: seq<nat>) returns (emitted: seq<nat>)
    requires forall r :: r in Roots(iTab, indices) ==> r > 1
    ensures StrictlyDecreasing(emitted)
    ensures forall r :: r in emitted <==> r in Roots(iTab, indices)
  {
    emitted := [];
    var iDestroyed: nat := 0;
    ghost var roots := Roots(iTab, indices);
    ghost var bound := Bound(iTab, indices);
    while true
      invariant StrictlyDecreasing(emitted)
      invariant iDestroyed == (if emitted == [] then 0 else emitted[|emitted| - 1]) <= bound
      invariant emitted != [] ==> iDestroyed > 1
      invariant forall r :: r in emitted ==> r in roots && r >= iDestroyed
      invariant forall r :: r in roots && (iDestroyed != 0 && r >= iDestroyed) ==> r in emitted
      decreases if iDestroyed == 0 then bound + 1 else iDestroyed
    {
      var iLargest: nat := 0;
      if iDestroyed == 0 || iTab < iDestroyed {
        iLargest := iTab;
      }
      for k := 0 to |indices|
        invariant iLargest == 0 || (iLargest in roots && (iDestroyed == 0 || iLargest < iDestroyed))
        invariant (iDestroyed == 0 || iTab < iDestroyed) ==> iTab <= iLargest
        invariant forall j :: 0 <= j < k && (iDestroyed == 0 || indices[j] < iDestroyed) ==> indices[j] <= iLargest
      {
        var iIdx := indices[k];
        if (iDestroyed == 0 || iIdx < iDestroyed) && iIdx > iLargest {
          iLargest := iIdx;
        }
      }
      if iLargest == 0 {
        return;
      }
      emitted := emitted + [iLargest];
      iDestroyed := iLargest;
    }
  }

  function Bound(iTab: nat, indices: seq<nat>): (b: nat)
    ensures forall r :: r in Roots(iTab, indices) ==> r <= b
  {
    if indices == [] then iTab
    else
      var b := Bound(iTab, indices[1..]);
      assert forall r :: r in Roots(iTab, indices) ==> r == indices[0] || r in Roots(iTab, indices[1..]) by {
        forall r | r in Roots(iTab, indices) && r != iTab ensures r == indices[0] || r in Roots(iTab, indices[1..]) {
          var i :| 0 <= i < |indices| && indices[i] == r;
          assert i > 0 ==> indices[1..][i - 1] == r;
        }
      }
      if b < indices[0] then indices[0] else b
  }

  // ---------------------------------------------------------------------------------------------
  // What executing them does

  /**
    The tables and indices of an auto-vacuum database: where the root page of each really is, and what
    the catalogue (the schema in memory, and likewise sqlite_master) says.  Dropped objects may linger
    in the catalogue while the statement runs.
   */
  datatype Database<!Obj> = Database(root: map<Obj, nat>, catalogue: map<Obj, nat>)

  ghost predicate Sound<Obj>(db: Database<Obj>) {
    && (forall x, y :: x in db.root && y in db.root && x != y ==> db.root[x] != db.root[y])
    && (forall x :: x in db.root ==> x in db.catalogue && db.catalogue[x] == db.root[x])
  }

  ghost predicate IsLargest<Obj>(db: Database<Obj>, x: Obj) {
    x in db.root && forall y :: y in db.root ==> db.root[y] <= db.root[x]
  }

  /** sqlite3RootPageMoved: every entry that says iFrom, not only the first. */
  function RootPageMoved<Obj>(catalogue: map<Obj, nat>, iFrom: nat, iTo: nat): map<Obj, nat> {
    map x | x in catalogue :: if catalogue[x] == iFrom then iTo else catalogue[x]
  }

  /**
    OP_Destroy on root page r of object `gone`: the object disappears, and when another object `last`
    has the largest root page, its root moves into the freed page.
   */
  ghost predicate Destroyed<Obj(!new)>(db: Database<Obj>, r: nat, db': Database<Obj>) {
    exists gone, last :: DestroyedAs(db, r, gone, last, db')
  }

  ghost predicate DestroyedAs<Obj>(db: Database<Obj>, r: nat, gone: Obj, last: Obj, db': Database<Obj>) {
    && gone in db.root && db.root[gone] == r && IsLargest(db, last)
    && if last == gone then db' == db.(root := db.root - {gone})
       else db' == Database((db.root - {gone})[last := r], RootPageMoved(db.catalogue, db.root[last], r))
  }

  /** The opcodes of `emitted` executed in order. */
  ghost predicate Executed<Obj(!new)>(states: seq<Database<Obj>>, emitted: seq<nat>) {
    && |states| == |emitted| + 1
    && forall i :: 0 <= i < |emitted| ==> ExecutedAt(states, emitted, i)
  }

  ghost predicate ExecutedAt<Obj(!new)>(states: seq<Database<Obj>>, emitted: seq<nat>, i: nat)
    requires i < |emitted| && i + 1 < |states|
  {
    Destroyed(states[i], emitted[i], states[i + 1])
  }

  /** The objects of `doomed` still present sit on the roots that are still to be destroyed. */
  ghost predicate Pending<Obj>(db: Database<Obj>, doomed: set<Obj>, roots: seq<nat>) {
    && (forall x :: x in doomed && x in db.root ==> db.root[x] in roots)
    && (forall r :: r in roots ==> exists x :: x in doomed && x in db.root && db.root[x] == r)
  }

  lemma DestroyLargestPending<Obj(!new)>(db: Database<Obj>, r: nat, rest: seq<nat>, doomed: set<Obj>,
                                         db': Database<Obj>)
    requires Sound(db) && Pending(db, doomed, [r] + rest) && Destroyed(db, r, db')
    requires forall k :: k in rest ==> k < r
    ensures Sound(db') && Pending(db', doomed, rest)
    ensures forall x :: x !in doomed ==> (x in db'.root <==> x in db.root)
  {
    var gone, last :| DestroyedAs(db, r, gone, last, db');
    assert r in [r] + rest;
    var x :| x in doomed && x in db.root && db.root[x] == r;
    assert gone == x;
    if last in doomed {
      assert db.root[last] in [r] + rest;
      assert last == gone;
    }
    forall y | y in doomed && y in db'.root ensures db'.root[y] in rest {
      assert db.root[y] in [r] + rest && y != gone && y != last;
    }
    forall k | k in rest ensures exists y :: y in doomed && y in db'.root && db'.root[y] == k {
      assert k in [r] + rest;
      var y :| y in doomed && y in db.root && db.root[y] == k;
      assert y in db'.root && db'.root[y] == k;
    }
  }

  /**
    Executing the roots in decreasing order destroys exactly the doomed objects, and the catalogue still
    gives the right root page of every other object.
   */
  lemma {:induction false} DropRemovesExactlyDoomed<Obj(!new)>(states: seq<Database<Obj>>, emitted: seq<nat>,
      doomed: set<Obj>)
    requires Executed(states, emitted) && StrictlyDecreasing(emitted)
    requires Sound(states[0]) && Pending(states[0], doomed, emitted)
    ensures Sound(states[|emitted|])
    ensures states[|emitted|].root.Keys == states[0].root.Keys - doomed
    decreases |emitted|
  {
    hide Sound, Pending, Destroyed;
    if emitted == [] {
      NonePending(states[0], doomed);
    } else {
      assert ExecutedAt(states, emitted, 0);
      var rest := emitted[1..];
      assert [emitted[0]] + rest == emitted;
      DestroyLargestPending(states[0], emitted[0], rest, doomed, states[1]);
      RestExecuted(states, emitted);
      DropRemovesExactlyDoomed(states[1..], rest, doomed);
      var last := states[|emitted|];
      assert last == states[1..][|rest|];
      forall x ensures x in last.root.Keys <==> x in states[0].root.Keys && x !in doomed {}
    }
  }

  lemma NonePending<Obj(!new)>(db: Database<Obj>, doomed: set<Obj>)
    requires Pending(db, doomed, [])
    ensures db.root.Keys == db.root.Keys - doomed
  {
  }

  lemma PendingOn<Obj>(db: Database<Obj>, doomed: set<Obj>, emitted: seq<nat>, r: nat) returns (gone: Obj)
    requires Pending(db, doomed, emitted) && r in emitted
    ensures gone in doomed && gone in db.root && db.root[gone] == r
  {
    gone :| gone in doomed && gone in db.root && db.root[gone] == r;
  }

  lemma CanDestroy<Obj(!new)>(db: Database<Obj>, gone: Obj) returns (db': Database<Obj>)
    requires gone in db.root
    ensures Destroyed(db, db.root[gone], db')
  {
    var r := db.root[gone];
    var last := LargestExists(db.root, gone);
    db' := if last == gone then db.(root := db.root - {gone})
           else Database((db.root - {gone})[last := r], RootPageMoved(db.catalogue, db.root[last], r));
    assert DestroyedAs(db, r, gone, last, db');
  }

  /** Such an execution exists: no OP_Destroy finds its root page missing. */
  lemma {:induction false} DropCanExecute<Obj(!new)>(db: Database<Obj>, emitted: seq<nat>, doomed: set<Obj>)
    returns (states: seq<Database<Obj>>)
    requires StrictlyDecreasing(emitted) && Sound(db) && Pending(db, doomed, emitted)
    ensures Executed(states, emitted) && states[0] == db
    decreases |emitted|
  {
    hide Destroyed, Sound, Pending;
    if emitted == [] {
      states := [db];
    } else {
      var r, rest := emitted[0], emitted[1..];
      assert [r] + rest == emitted && r in emitted;
      var gone := PendingOn(db, doomed, emitted, r);
      var db' := CanDestroy(db, gone);
      DestroyLargestPending(db, r, rest, doomed, db');
      var tail := DropCanExecute(db', rest, doomed);
      states := [db] + tail;
      FirstExecuted(db, r, tail, rest);
    }
  }

  lemma FirstExecuted<Obj(!new)>(db: Database<Obj>, r: nat, tail: seq<Database<Obj>>, rest: seq<nat>)
    requires Executed(tail, rest) && Destroyed(db, r, tail[0])
    ensures Executed([db] + tail, [r] + rest)
  {
    hide Destroyed;
    forall i | 0 <= i < |rest| + 1 ensures ExecutedAt([db] + tail, [r] + rest, i) {
      if i > 0 { assert ExecutedAt(tail, rest, i - 1); }
    }
  }

  lemma {:induction false} LargestExists<Obj>(root: map<Obj, nat>, some: Obj) returns (last: Obj)
    requires some in root
    ensures last in root && forall y :: y in root ==> root[y] <= root[last]
    decreases |root|
  {
    var rest := root - {some};
    if rest == map[] {
      last := some;
      assert forall y :: y in root ==> y == some || y in rest;
    } else {
      var other :| other in rest;
      assert |rest| < |root| by { assert rest.Keys == root.Keys - {some}; }
      last := LargestExists(rest, other);
      assert forall y :: y in root ==> y == some || y in rest;
      if root[last] < root[some] { last := some; }
    }
  }

  // ---------------------------------------------------------------------------------------------
  // The whole drop, and why in this order

  /** The roots that the catalogue gives for these objects. */
  function RootsIn<Obj>(db: Database<Obj>, objects: seq<Obj>): (roots: seq<nat>)
    requires forall x :: x in objects ==> x in db.catalogue
    ensures |roots| == |objects| && forall i :: 0 <= i < |objects| ==> roots[i] == db.catalogue[objects[i]]
  {
    seq(|objects|, i requires 0 <= i < |objects| => db.catalogue[objects[i]])
  }

  /** The table and its indices. */
  function Doomed<Obj(!new)>(table: Obj, indices: seq<Obj>): (doomed: set<Obj>)
    ensures forall x :: x in doomed <==> x == table || x in indices
  {
    {table} + (set x | x in indices)
  }

  /** DestroyTable's opcodes are all that is pending for the table and its indices. */
  lemma DropIsPending<Obj(!new)>(db: Database<Obj>, table: Obj, indices: seq<Obj>, emitted: seq<nat>)
    requires Sound(db) && table in db.root && forall x :: x in indices ==> x in db.root
    requires forall r :: r in emitted <==> r in Roots(db.catalogue[table], RootsIn(db, indices))
    ensures Pending(db, Doomed(table, indices), emitted)
  {
    var doomed, roots := Doomed(table, indices), RootsIn(db, indices);
    forall x | x in doomed && x in db.root ensures db.root[x] in emitted {
      if x != table {
        var i :| 0 <= i < |indices| && indices[i] == x;
        assert roots[i] == db.root[x];
      }
    }
    forall r | r in emitted ensures exists x :: x in doomed && x in db.root && db.root[x] == r {
      if r == db.catalogue[table] {
        assert table in doomed && db.root[table] == r;
      } else {
        var i :| 0 <= i < |indices| && roots[i] == r;
        assert indices[i] in doomed && db.root[indices[i]] == r;
      }
    }
  }

  /**
    Dropping a table: the opcodes can be executed, and however they are, exactly the table and its
    indices disappear and the catalogue is right about all the others.
   */
  method DropTable<Obj(!new)>(db: Database<Obj>, table: Obj, indices: seq<Obj>)
    returns (emitted: seq<nat>, ghost states: seq<Database<Obj>>)
    requires Sound(db) && table in db.root && (forall x :: x in indices ==> x in db.root)
    requires forall x :: x in db.root ==> db.root[x] > 1
    ensures Executed(states, emitted) && states[0] == db
    ensures forall run: seq<Database<Obj>> :: Executed(run, emitted) && run[0] == db ==>
      Dropped(db, Doomed(table, indices), run[|emitted|])
  {
    var roots := RootsIn(db, indices);
    emitted := DestroyTable(db.catalogue[table], roots);
    ghost var doomed := Doomed(table, indices);
    DropIsPending(db, table, indices, emitted);
    states := DropCanExecute(db, emitted, doomed);
    forall run: seq<Database<Obj>> | Executed(run, emitted) && run[0] == db
      ensures Dropped(db, doomed, run[|emitted|])
    {
      DropRemovesExactlyDoomed(run, emitted, doomed);
    }
  }

  ghost predicate Dropped<Obj>(db: Database<Obj>, doomed: set<Obj>, db': Database<Obj>) {
    Sound(db') && db'.root.Keys == db.root.Keys - doomed
  }

  ghost predicate AllBelow<Obj>(db: Database<Obj>, r: nat) {
    forall x :: x in db.root ==> db.root[x] < r
  }

  lemma DestroyKeepsBelow<Obj(!new)>(db: Database<Obj>, r: nat, db': Database<Obj>, bound: nat)
    requires Destroyed(db, r, db') && AllBelow(db, bound)
    ensures AllBelow(db', bound) && r < bound
  {
    var gone, last :| DestroyedAs(db, r, gone, last, db');
  }

  /** A root above all those in use cannot be destroyed later on. */
  lemma {:induction false} BelowIsAbsent<Obj(!new)>(states: seq<Database<Obj>>, emitted: seq<nat>, bound: nat, i: nat)
    requires Executed(states, emitted) && AllBelow(states[0], bound) && i < |emitted|
    ensures emitted[i] < bound
    decreases i
  {
    assert ExecutedAt(states, emitted, 0);
    DestroyKeepsBelow(states[0], emitted[0], states[1], bound);
    if i > 0 {
      RestExecuted(states, emitted);
      BelowIsAbsent(states[1..], emitted[1..], bound, i - 1);
    }
  }

  lemma RestExecuted<Obj(!new)>(states: seq<Database<Obj>>, emitted: seq<nat>)
    requires Executed(states, emitted) && emitted != []
    ensures Executed(states[1..], emitted[1..])
  {
    forall i | 0 <= i < |emitted| - 1 ensures ExecutedAt(states[1..], emitted[1..], i) {
      assert ExecutedAt(states, emitted, i + 1);
    }
  }

  /** The first root to be destroyed is the largest one in use: no other order gets to the largest. */
  lemma FirstIsLargest<Obj(!new)>(states: seq<Database<Obj>>, emitted: seq<nat>, doomed: set<Obj>)
    requires Executed(states, emitted) && emitted != [] && Sound(states[0])
    requires Pending(states[0], doomed, emitted) && states[0].root.Keys <= doomed
    ensures Sound(states[1]) && AllBelow(states[1], emitted[0]) && Pending(states[1], doomed, emitted[1..])
    ensures states[1].root.Keys <= doomed
  {
    assert ExecutedAt(states, emitted, 0);
    var db, r, db', rest := states[0], emitted[0], states[1], emitted[1..];
    assert emitted == [r] + rest;
    var gone, last :| DestroyedAs(db, r, gone, last, db');
    RestExecuted(states, emitted);
    if last != gone {
      assert db.root[last] in emitted && db.root[last] > r;
      assert AllBelow(db', db.root[last]);
      var i :| 0 <= i < |rest| && rest[i] == db.root[last];
      BelowIsAbsent(states[1..], rest, db.root[last], i);
      assert false;
    }
    forall k | k in rest ensures k < r {
      var i :| 0 <= i < |rest| && rest[i] == k;
      BelowIsAbsent(states[1..], rest, r, i);
    }
    DestroyLargestPending(db, r, rest, doomed, db');
  }

  /**
    The order is forced: in a database that has nothing else, roots can be destroyed in the given order
    if and only if it is decreasing.
   */
  lemma OnlyDecreasingExecutes<Obj(!new)>(db: Database<Obj>, emitted: seq<nat>, doomed: set<Obj>)
    requires Sound(db) && Pending(db, doomed, emitted) && db.root.Keys <= doomed
    ensures StrictlyDecreasing(emitted) <==>
      exists states: seq<Database<Obj>> :: Executed(states, emitted) && states[0] == db
  {
    if StrictlyDecreasing(emitted) {
      var states := DropCanExecute(db, emitted, doomed);
    } else {
      forall states: seq<Database<Obj>> | Executed(states, emitted) && states[0] == db ensures false {
        ExecutedIsDecreasing(states, emitted, doomed);
      }
    }
  }

  lemma {:induction false} ExecutedIsDecreasing<Obj(!new)>(states: seq<Database<Obj>>, emitted: seq<nat>,
                                                           doomed: set<Obj>)
    requires Executed(states, emitted) && Sound(states[0])
    requires Pending(states[0], doomed, emitted) && states[0].root.Keys <= doomed
    ensures StrictlyDecreasing(emitted)
    decreases |emitted|
  {
    if emitted != [] {
      FirstIsLargest(states, emitted, doomed);
      RestExecuted(states, emitted);
      ExecutedIsDecreasing(states[1..], emitted[1..], doomed);
      forall i, j | 0 <= i < j < |emitted| ensures emitted[i] > emitted[j] {
        if i == 0 { BelowIsAbsent(states[1..], emitted[1..], emitted[0], j - 1); }
      }
    }
  }

  /**
    So ascending order does not do: destroying root 4 first moves the other doomed object from 5 to 4,
    where the second OP_Destroy, of root 5, cannot find it.
   */
  lemma AscendingOrderFails()
    ensures var db := Database(map[false := 4, true := 5], map[false := 4, true := 5]);
            && (exists db' :: Destroyed(db, 4, db'))
            && forall db' :: Destroyed(db, 4, db') ==> true in db'.root && db'.root[true] == 4 && AllBelow(db', 5)
  {
    var db := Database(map[false := 4, true := 5], map[false := 4, true := 5]);
    var after := Database((db.root - {false})[true := 4], RootPageMoved(db.catalogue, db.root[true], 4));
    assert DestroyedAs(db, 4, false, true, after);
    assert Destroyed(db, 4, after);
  }
}
