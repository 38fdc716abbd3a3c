/**
  The walk over a stored tree: every row of an intact leaf is delivered, in order, and every page gets the
  status that it deserves, whatever is found at the lost children and on the other pages of the file.
 */
module RepairRuns {
  import opened Common
  import opened RepairBytes
  import opened RepairRecord
  import opened RepairCell
  import opened RepairPages
  import opened RepairTrees

  // ---------------------------------------------------------------------------------------------
  // The pages that the walk can come to are tame

  lemma StoredIsTame(f: File, t: Tree)
    requires ValidFile(f) && Stored(f, {}, t) && Apart(t)
    ensures Tame(f, Reach(t)) && Within(f, Reach(t), RootOf(t))
  {
    hide TamePage, Stored, Decode;
    TreeIsTame(f, {}, t, Reach(t), TreeSpill(t));
    RootWithin(f, {}, t, Reach(t));
  }

  lemma RootWithin(f: File, above: set<nat>, t: Tree, pages: set<nat>)
    requires ValidFile(f) && Stored(f, above, t) && Reach(t) + above <= pages
    ensures Within(f, pages, RootOf(t))
  {
    hide Contained, Decode;
    if !t.LostPage? { assert t.no in TreePages(t); }
  }

  /** Every page of the tree, and of the zones of its lost children, keeps to `pages`. */
  lemma {:induction false} TreeIsTame(f: File, above: set<nat>, t: Tree, pages: set<nat>, spill: set<nat>)
    requires ValidFile(f) && Stored(f, above, t) && Reach(t) + above <= pages && TreeSpill(t) <= spill && spill !! pages
    ensures forall no :: no in Reach(t) && ValidPageno(f, no) ==> TamePage(f, pages, no)
    decreases t, 2
  {
    hide Decode, TamePage;
    match t {
      case LeafPage(no, rows, chains) =>
        LeafIsTame(f, above, t, pages, spill);
      case IndexLeaf(no) =>
        IndexLeafIsTame(f, pages, no);
      case InteriorPage(no, kids) =>
        assert no in TreePages(t);
        KidsAreTame(f, above + {no}, kids, pages, spill);
        forall c | c in Roots(kids) ensures Within(f, pages, c) {
          var i :| 0 <= i < |kids| && RootOf(kids[i]) == c;
          KidParts(kids, i);
          RootWithin(f, above + {no}, kids[i], pages);
        }
        InteriorIsTame(f, pages, no, Roots(kids));
      case LostPage(_, zone) =>
        forall no | no in zone && ValidPageno(f, no) ensures TamePage(f, pages, no) {
          ContainedIsTame(f, above, zone, pages, no);
        }
    }
  }

  lemma LeafIsTame(f: File, above: set<nat>, t: Tree, pages: set<nat>, spill: set<nat>)
    requires ValidFile(f) && t.LeafPage? && Stored(f, above, t) && TreeSpill(t) <= spill && spill !! pages
    ensures TamePage(f, pages, t.no)
  {
    hide Decode, CellAt, CellEnds, IsInterior;
    if t.rows != [] {
      var pointers := Decode(f, t.no).pointers;
      forall p | p in pointers
        ensures CellEnds(f, t.no, p) && forall k :: k in CellAt(f, t.no, p).overflow ==> !IsInner(f, pages, k)
      {
        var i :| 0 <= i < |pointers| && pointers[i] == p;
        assert ReadAs(f, t.no, pointers[i], t.rows[i], t.chains[i]);
      }
    }
  }

  lemma IndexLeafIsTame(f: File, pages: set<nat>, no: nat)
    requires ValidFile(f) && ValidPageno(f, no) && Decode(f, no) == Skipped
    ensures TamePage(f, pages, no)
  {
    hide Decode;
  }

  lemma InteriorIsTame(f: File, pages: set<nat>, no: nat, children: seq<int>)
    requires ValidFile(f) && ValidPageno(f, no) && Decode(f, no) == Interior(children)
    requires forall c :: c in children ==> Within(f, pages, c)
    ensures TamePage(f, pages, no)
  {
    hide Decode;
  }

  lemma ContainedIsTame(f: File, above: set<nat>, zone: set<nat>, pages: set<nat>, no: nat)
    requires ValidFile(f) && Contained(f, above, zone) && zone + above <= pages && no in zone && ValidPageno(f, no)
    ensures TamePage(f, pages, no)
  {
    hide Decode, CellAt, CellEnds;
    assert ContainedPage(f, above, zone, no);
  }

  lemma {:induction false} KidsAreTame(f: File, above: set<nat>, ts: seq<Tree>, pages: set<nat>, spill: set<nat>)
    requires ValidFile(f) && (forall i :: 0 <= i < |ts| ==> Stored(f, above, ts[i])) && above <= pages
    requires (forall no :: no in PagesOf(ts) || no in ZonesOf(ts) ==> no in pages)
    requires SpillOf(ts) <= spill && spill !! pages
    ensures forall no :: (no in PagesOf(ts) || no in ZonesOf(ts)) && ValidPageno(f, no) ==> TamePage(f, pages, no)
    decreases ts, 1
  {
    hide TamePage, Stored;
    if ts != [] {
      TreeIsTame(f, above, ts[0], pages, spill);
      KidsAreTame(f, above, ts[1..], pages, spill);
    }
  }

  lemma {:induction false} KidParts(ts: seq<Tree>, i: nat)
    requires i < |ts|
    ensures forall no :: no in Reach(ts[i]) ==> no in PagesOf(ts) || no in ZonesOf(ts)
  {
    if i > 0 { KidParts(ts[1..], i - 1); }
  }

  // ---------------------------------------------------------------------------------------------
  // The walk in the zone of a lost child

  /** Only pages of the zone have another status, and the rows delivered before are still there. */
  ghost predicate OnlyIn(side: set<nat>, s: State, s': State) {
    && |s'.status| == |s.status| && |s.rows| <= |s'.rows| && s'.rows[..|s.rows|] == s.rows
    && forall k: int :: k < 0 || k !in side ==> Get(s', k) == Get(s, k)
  }

  lemma OnlyInOn(side: set<nat>, s: State, t: State, u: State)
    requires OnlyIn(side, s, t) && OnlyIn(side, t, u)
    ensures OnlyIn(side, s, u)
  {
    assert u.rows[..|s.rows|] == u.rows[..|t.rows|][..|s.rows|];
  }

  ghost predicate AllChecking(s: State, pages: set<nat>) {
    forall k :: k in pages ==> Get(s, k) == Checking
  }

  lemma CellOnlyIn(zone: set<nat>, s: State, c: CellResult)
    requires forall k :: k in c.overflow ==> k in zone
    ensures OnlyIn(zone, s, AfterCell(s, c))
  {
    hide Visit;
  }

  lemma {:induction false} ZoneCells(f: File, pages: set<nat>, s: State, zone: set<nat>, no: nat, pointers: seq<int>)
    requires ValidFile(f) && ValidPageno(f, no) && TameLeaf(f, pages, no, pointers)
    requires ContainedCells(f, zone, no, pointers)
    ensures ParseCells(f, pages, s, no, pointers).rc != FAULT
    ensures OnlyIn(zone, s, ParseCells(f, pages, s, no, pointers).s)
    decreases |pointers|
  {
    hide CellAt, CellEnds, IsInterior, OnlyIn, TameLeaf, AfterCell;
    if pointers == [] {
      OnlyInSelf(zone, s);
    } else {
      var c := CellAt(f, no, pointers[0]);
      assert pointers[0] in pointers;
      CellOnlyIn(zone, s, c);
      if c.rc == OK {
        CellStep(f, pages, s, no, pointers);
        assert ContainedCells(f, zone, no, pointers[1..]);
        ZoneCells(f, pages, AfterCell(s, c), zone, no, pointers[1..]);
        OnlyInOn(zone, s, AfterCell(s, c), ParseCells(f, pages, AfterCell(s, c), no, pointers[1..]).s);
      }
    }
  }

  lemma OnlyInSelf(zone: set<nat>, s: State)
    ensures OnlyIn(zone, s, s)
  {
  }

  /** The walk from a page number inside a zone ends, does not leave the zone, and takes no row back. */
  lemma {:induction false} ZoneRun(f: File, pages: set<nat>, skip: bool, s: State, above: set<nat>, zone: set<nat>,
                                   no: int)
    requires ValidFile(f) && |s.status| == |f.pages| && Tame(f, pages) && Within(f, pages, no)
    requires Contained(f, above, zone) && StaysIn(f, above, zone, no) && AllChecking(s, above)
    ensures Parse(f, pages, skip, s, no).rc != FAULT && OnlyIn(zone, s, Parse(f, pages, skip, s, no).s)
    decreases Idle(f, pages, s), 0
  {
    hide Decode, ContainedCells, TameLeaf, ParseCells, Contained, AllWithin;
    if ValidPageno(f, no) && Get(s, no) != Checking {
      var s1 := Set(s, no, Checking);
      assert no in zone && TamePage(f, pages, no);
      ContainedHere(f, above, zone, no);
      match Decode(f, no) {
        case Bad(rc) =>
        case Skipped =>
        case Leaf(pointers) => if !skip { ZoneCells(f, pages, s1, zone, no, pointers); }
        case Interior(children) =>
          assert Idle(f, pages, s1) == Idle(f, pages, s) - {no} && no in Idle(f, pages, s);
          ZoneChildren(f, pages, skip, s1, above, zone, children);
      }
    }
  }

  lemma ContainedHere(f: File, above: set<nat>, zone: set<nat>, no: nat)
    requires ValidFile(f) && Contained(f, above, zone) && no in zone && ValidPageno(f, no)
    ensures ContainedPage(f, above, zone, no) && no !in above
  {
  }

  lemma {:induction false} ZoneChildren(f: File, pages: set<nat>, skip: bool, s: State, above: set<nat>,
                                        zone: set<nat>, children: seq<int>)
    requires ValidFile(f) && |s.status| == |f.pages| && Tame(f, pages) && AllWithin(f, pages, children)
    requires Contained(f, above, zone)
    requires (forall c :: c in children ==> StaysIn(f, above, zone, c)) && AllChecking(s, above)
    ensures ParseChildren(f, pages, skip, s, children).rc != FAULT
    ensures OnlyIn(zone, s, ParseChildren(f, pages, skip, s, children).s)
    decreases Idle(f, pages, s), |children|
  {
    hide Parse, Contained;
    if children == [] {
      OnlyInSelf(zone, s);
    } else {
      var o := Parse(f, pages, skip, s, children[0]);
      assert children[0] in children;
      ZoneRun(f, pages, skip, s, above, zone, children[0]);
      StillChecking(f, above, zone, s, o.s);
      assert Idle(f, pages, o.s) == Idle(f, pages, s);
      ZoneChildren(f, pages, skip, o.s, above, zone, children[1..]);
      OnlyInOn(zone, s, o.s, ParseChildren(f, pages, skip, o.s, children[1..]).s);
    }
  }

  lemma StillChecking(f: File, above: set<nat>, zone: set<nat>, s: State, s': State)
    requires ValidFile(f) && Contained(f, above, zone) && AllChecking(s, above) && OnlyIn(zone, s, s')
    ensures AllChecking(s', above)
  {
  }

  // ---------------------------------------------------------------------------------------------
  // The walk over the tree

  /** Cells that can be read deliver their rows in order, and touch their overflow pages only. */
  lemma {:induction false} CellsRun(f: File, pages: set<nat>, s: State, no: nat, pointers: seq<int>, rows: seq<Row>,
                                    chains: seq<seq<nat>>)
    requires ValidFile(f) && ValidPageno(f, no) && TameLeaf(f, pages, no, pointers)
    requires AllRead(f, no, pointers, rows, chains)
    ensures var o := ParseCells(f, pages, s, no, pointers);
            && o.rc == OK && o.s.rows == s.rows + rows
            && forall k: int :: k < 0 || k !in InChains(chains) ==> Get(o.s, k) == Get(s, k)
    decreases |pointers|
  {
    hide CellAt, CellEnds, IsInterior, Visit, TameLeaf;
    if pointers != [] {
      var c := CellAt(f, no, pointers[0]);
      assert ReadAs(f, no, pointers[0], rows[0], chains[0]);
      CellStep(f, pages, s, no, pointers);
      forall i | 0 <= i < |rows| - 1 ensures ReadAs(f, no, pointers[1..][i], rows[1..][i], chains[1..][i]) {
        assert ReadAs(f, no, pointers[i + 1], rows[i + 1], chains[i + 1]);
      }
      CellsRun(f, pages, AfterCell(s, c), no, pointers[1..], rows[1..], chains[1..]);
      ChainsSplit(chains);
      assert s.rows + rows == s.rows + [rows[0]] + rows[1..];
    } else {
      assert s.rows + rows == s.rows;
    }
  }

  lemma {:induction false} ChainsSplit(chains: seq<seq<nat>>)
    requires chains != []
    ensures InChains(chains) == InChains(chains[1..]) + Members(chains[0])
  {
    if |chains| > 1 {
      var front := chains[..|chains| - 1];
      ChainsSplit(front);
      assert front[1..] == chains[1..][..|chains| - 2];
    }
  }

  ghost predicate NoneChecking(s: State, pages: seq<nat>) {
    forall no :: no in pages ==> Get(s, no) != Checking
  }

  /** Pages without a cell are damaged and the others checked. */
  ghost predicate Marked(s: State, pages: seq<nat>, bare: set<nat>) {
    forall no :: no in pages ==> Get(s, no) == if no in bare then Damaged else Checked
  }

  /** What a walk over these pages has done: it marked them, touched no others but `side`, and delivered `out`. */
  ghost predicate Ran(pages: seq<nat>, side: set<nat>, bare: set<nat>, s: State, s': State, out: seq<Row>) {
    && |s'.status| == |s.status| && s'.rows == s.rows + out && Marked(s', pages, bare)
    && forall k: int :: k < 0 || (k !in pages && k !in side) ==> Get(s', k) == Get(s, k)
  }

  /** The pages above are being checked, and nothing below is one of them. */
  ghost predicate Below(s: State, above: set<nat>, pages: seq<nat>, side: set<nat>) {
    && AllChecking(s, above) && above !! side && Disjoint(pages, above)
    && NoneChecking(s, pages) && NoRepeats(pages) && Disjoint(pages, side)
  }

  /**
    Parsing a stored tree delivers every row of its leaves exactly once, from left to right, with possibly
    other rows for what is lost, and marks all its pages.  Of a system table no row is delivered.
   */
  lemma {:induction false} TreeRun(f: File, pages: set<nat>, skip: bool, s: State, above: set<nat>, t: Tree)
    returns (out: seq<Row>)
    requires ValidFile(f) && |s.status| == |f.pages| && Tame(f, pages)
    requires Stored(f, above, t) && Within(f, pages, RootOf(t))
    requires Below(s, above, TreePages(t), TreeSpill(t) + TreeZones(t))
    ensures if skip then out == [] else Yields(t, out)
    ensures Ran(TreePages(t), TreeSpill(t) + TreeZones(t), TreeBare(t), s, Parse(f, pages, skip, s, RootOf(t)).s, out)
    ensures TreeResult(t, Parse(f, pages, skip, s, RootOf(t)).rc)
    decreases t, 2
  {
    hide Decode, Parse, Contained, TamePage;
    match t {
      case LeafPage(no, rows, _) =>
        LeafRun(f, pages, skip, s, above, t);
        out := if skip then [] else rows;
      case IndexLeaf(no) =>
        IndexLeafRun(f, pages, skip, s, above, t);
        out := [];
      case InteriorPage(no, kids) =>
        assert no in TreePages(t);
        var s1 := Set(s, no, Checking);
        assert TamePage(f, pages, no);
        KidsBelow(s, above, no, kids);
        WithinOfTame(f, pages, no, Roots(kids));
        out := ForestRun(f, pages, skip, s1, above + {no}, kids);
        InteriorRun(f, pages, skip, s, t, ParseChildren(f, pages, skip, s1, Roots(kids)).s, out);
      case LostPage(at, zone) =>
        ZoneRun(f, pages, skip, s, above, zone, at);
        if zone == {} { RefusedRun(f, pages, skip, s, above, at); }
        if skip { SkipDeliversNone(f, pages, s, at); }
        var o := Parse(f, pages, skip, s, at);
        out := o.s.rows[|s.rows|..];
        assert o.s.rows == o.s.rows[..|s.rows|] + out;
    }
  }

  lemma RefusedRun(f: File, pages: set<nat>, skip: bool, s: State, above: set<nat>, no: int)
    requires ValidFile(f) && |s.status| == |f.pages| && Tame(f, pages) && Within(f, pages, no)
    requires StaysIn(f, above, {}, no) && AllChecking(s, above)
    ensures Parse(f, pages, skip, s, no).s.rows == s.rows
  {
  }

  /** A leaf without a cell is taken for damage; a read outside of a buffer is excluded. */
  predicate TreeResult(t: Tree, rc: RC) {
    match t
    case LeafPage(_, rows, _) => rc == if rows == [] then DAMAGED else OK
    case IndexLeaf(_) => rc == OK
    case InteriorPage(_, _) => rc == OK
    case LostPage(_, _) => rc != FAULT
  }

  lemma WithinOfTame(f: File, pages: set<nat>, no: nat, children: seq<int>)
    requires ValidFile(f) && ValidPageno(f, no) && TamePage(f, pages, no) && Decode(f, no) == Interior(children)
    ensures AllWithin(f, pages, children)
  {
    hide Decode;
  }

  lemma KidsBelow(s: State, above: set<nat>, no: nat, kids: seq<Tree>)
    requires 1 <= no <= |s.status|
    requires Below(s, above, [no] + PagesOf(kids), SpillOf(kids) + ZonesOf(kids))
    ensures Below(Set(s, no, Checking), above + {no}, PagesOf(kids), SpillOf(kids) + ZonesOf(kids))
  {
    var rest := PagesOf(kids);
    assert no in [no] + rest && forall k :: k in rest ==> k in [no] + rest;
    SplitPages([no], rest);
  }

  lemma SplitPages(a: seq<nat>, b: seq<nat>)
    requires NoRepeats(a + b)
    ensures NoRepeats(a) && NoRepeats(b) && forall k :: k in a ==> k !in b
  {
    forall i, j | 0 <= i < j < |a| ensures a[i] != a[j] { assert (a + b)[i] != (a + b)[j]; }
    forall i, j | 0 <= i < j < |b| ensures b[i] != b[j] { assert (a + b)[|a| + i] != (a + b)[|a| + j]; }
    forall x, y | x in a && y in b ensures x != y {
      var i :| 0 <= i < |a| && a[i] == x;
      var j :| 0 <= j < |b| && b[j] == y;
      assert (a + b)[i] != (a + b)[|a| + j];
    }
  }

  lemma LeafRun(f: File, pages: set<nat>, skip: bool, s: State, above: set<nat>, t: Tree)
    requires ValidFile(f) && |s.status| == |f.pages| && Tame(f, pages)
    requires t.LeafPage? && Stored(f, above, t) && t.no in pages
    requires NoneChecking(s, [t.no]) && Disjoint([t.no], TreeSpill(t))
    ensures var o := Parse(f, pages, skip, s, t.no);
            && o.rc == (if t.rows == [] then DAMAGED else OK)
            && Ran([t.no], TreeSpill(t) + {}, TreeBare(t), s, o.s, if skip then [] else t.rows)
  {
    hide Decode, AllRead, CellAt, ParseCells, TameLeaf, IsInterior;
    var s1 := Set(s, t.no, Checking);
    assert t.no in [t.no] && TamePage(f, pages, t.no);
    assert s.rows + [] == s.rows;
    if t.rows != [] && !skip {
      CellsRun(f, pages, s1, t.no, Decode(f, t.no).pointers, t.rows, t.chains);
    }
  }

  lemma IndexLeafRun(f: File, pages: set<nat>, skip: bool, s: State, above: set<nat>, t: Tree)
    requires ValidFile(f) && |s.status| == |f.pages| && Tame(f, pages)
    requires t.IndexLeaf? && Stored(f, above, t) && t.no in pages && NoneChecking(s, [t.no])
    ensures var o := Parse(f, pages, skip, s, t.no);
            o.rc == OK && Ran([t.no], {} + {}, TreeBare(t), s, o.s, [])
  {
    hide Decode, TamePage;
    assert t.no in [t.no] && s.rows + [] == s.rows;
  }

  /** Once a page has been accepted, its status tells the result of its parse. */
  lemma StatusTellsResult(f: File, pages: set<nat>, skip: bool, s: State, no: int)
    requires ValidFile(f) && |s.status| == |f.pages| && Tame(f, pages) && Within(f, pages, no)
    requires ValidPageno(f, no) && Get(s, no) != Checking
    ensures var o := Parse(f, pages, skip, s, no);
            o.rc != FAULT ==>
              Get(o.s, no) == if o.rc == OK then Checked else if o.rc == DAMAGED then Damaged else Invalid
  {
    hide Decode, ParseCells, ParseChildren, TameLeaf;
    assert TamePage(f, pages, no);
  }

  /** A page number that the file does not have, and a page that is being parsed, are refused without a trace. */
  lemma RefusedLeavesNoTrace(f: File, pages: set<nat>, skip: bool, s: State, no: int)
    requires ValidFile(f) && |s.status| == |f.pages| && Tame(f, pages) && Within(f, pages, no)
    requires no < 1 || no > |f.pages| || Get(s, no) == Checking
    ensures Parse(f, pages, skip, s, no) == Outcome(MISUSE, s)
  {
  }

  /** A damaged page is marked, and that is all. */
  lemma DamagedRun(f: File, pages: set<nat>, skip: bool, s: State, no: int)
    requires ValidFile(f) && |s.status| == |f.pages| && Tame(f, pages) && Within(f, pages, no)
    requires ValidPageno(f, no) && Get(s, no) != Checking && Decode(f, no) == Bad(DAMAGED)
    ensures var o := Parse(f, pages, skip, s, no);
            && o.rc == DAMAGED && o.s.rows == s.rows && Get(o.s, no) == Damaged
            && forall k: int :: k != no ==> Get(o.s, k) == Get(s, k)
  {
    hide Decode;
    assert TamePage(f, pages, no);
  }

  /** Of a system table other than the master table no row is delivered, whatever its pages hold. */
  lemma {:induction false} SkipDeliversNone(f: File, pages: set<nat>, s: State, no: int)
    requires ValidFile(f) && |s.status| == |f.pages| && Tame(f, pages) && Within(f, pages, no)
    ensures Parse(f, pages, true, s, no).s.rows == s.rows
    decreases Idle(f, pages, s), 0
  {
    hide Decode, TameLeaf, ParseCells, AllWithin;
    if ValidPageno(f, no) && Get(s, no) != Checking {
      var s1 := Set(s, no, Checking);
      assert TamePage(f, pages, no);
      if Decode(f, no).Interior? {
        assert Idle(f, pages, s1) == Idle(f, pages, s) - {no} && no in Idle(f, pages, s);
        SkipDeliversNoneBelow(f, pages, s1, Decode(f, no).children);
      }
    }
  }

  lemma {:induction false} SkipDeliversNoneBelow(f: File, pages: set<nat>, s: State, children: seq<int>)
    requires ValidFile(f) && |s.status| == |f.pages| && Tame(f, pages) && AllWithin(f, pages, children)
    ensures ParseChildren(f, pages, true, s, children).s.rows == s.rows
    decreases Idle(f, pages, s), |children|
  {
    hide Parse;
    if children != [] {
      var o := Parse(f, pages, true, s, children[0]);
      SkipDeliversNone(f, pages, s, children[0]);
      if o.rc != FAULT {
        assert Idle(f, pages, o.s) == Idle(f, pages, s);
        SkipDeliversNoneBelow(f, pages, o.s, children[1..]);
      }
    }
  }

  lemma InteriorRun(f: File, pages: set<nat>, skip: bool, s: State, t: Tree, s2: State, out: seq<Row>)
    requires ValidFile(f) && |s.status| == |f.pages| && Tame(f, pages)
    requires t.InteriorPage? && ValidPageno(f, t.no) && t.no in pages
    requires Decode(f, t.no) == Interior(Roots(t.kids))
    requires Get(s, t.no) != Checking && AllWithin(f, pages, Roots(t.kids))
    requires ParseChildren(f, pages, skip, Set(s, t.no, Checking), Roots(t.kids)) == Outcome(OK, s2)
    requires t.no !in PagesOf(t.kids) && t.no !in SpillOf(t.kids) + ZonesOf(t.kids)
    requires Ran(PagesOf(t.kids), SpillOf(t.kids) + ZonesOf(t.kids), BareOf(t.kids), Set(s, t.no, Checking), s2, out)
    ensures Ran(TreePages(t), TreeSpill(t) + TreeZones(t), TreeBare(t), s, Parse(f, pages, skip, s, t.no).s, out)
    ensures Parse(f, pages, skip, s, t.no).rc == OK
  {
    hide Decode, ParseChildren, Ran, PagesOf, SpillOf, ZonesOf, BareOf, TamePage;
    assert Parse(f, pages, skip, s, t.no) == Outcome(OK, Finish(s2, t.no, OK));
    RootRan(s, t.no, t.kids, s2, out);
  }

  lemma RootRan(s: State, no: nat, kids: seq<Tree>, s2: State, out: seq<Row>)
    requires 1 <= no <= |s.status| && no !in PagesOf(kids) && no !in SpillOf(kids) + ZonesOf(kids)
    requires Ran(PagesOf(kids), SpillOf(kids) + ZonesOf(kids), BareOf(kids), Set(s, no, Checking), s2, out)
    ensures Ran([no] + PagesOf(kids), SpillOf(kids) + ZonesOf(kids), BareOf(kids), s, Finish(s2, no, OK), out)
  {
    BareInPages(kids);
  }

  lemma {:induction false} ForestRun(f: File, pages: set<nat>, skip: bool, s: State, above: set<nat>, ts: seq<Tree>)
    returns (out: seq<Row>)
    requires ValidFile(f) && |s.status| == |f.pages| && Tame(f, pages)
    requires forall i :: 0 <= i < |ts| ==> Stored(f, above, ts[i])
    requires AllWithin(f, pages, Roots(ts)) && Below(s, above, PagesOf(ts), SpillOf(ts) + ZonesOf(ts))
    ensures (if skip then out == [] else KidsYield(ts, out)) && ParseChildren(f, pages, skip, s, Roots(ts)).rc == OK
    ensures var o := ParseChildren(f, pages, skip, s, Roots(ts));
      Ran(PagesOf(ts), SpillOf(ts) + ZonesOf(ts), BareOf(ts), s, o.s, out)
    decreases ts, 1
  {
    hide Stored, Parse, Below, Ran, Yields;
    if ts == [] {
      NothingRan(s);
      out := [];
    } else {
      var t, rest := ts[0], ts[1..];
      assert ts == [t] + rest;
      assert Stored(f, above, t) && Roots(ts)[0] == RootOf(t) && Within(f, pages, RootOf(t));
      FirstBelow(s, above, t, rest);
      var a := TreeRun(f, pages, skip, s, above, t);
      var o := Parse(f, pages, skip, s, RootOf(t));
      assert Roots(ts)[1..] == Roots(rest);
      RestBelow(s, above, t, rest, o.s, a);
      var b := ForestRun(f, pages, skip, o.s, above, rest);
      if !skip { YieldsBoth(ts, a, b); }
      JoinRuns(s, above, t, rest, o.s, a, ParseChildren(f, pages, skip, o.s, Roots(rest)).s, b);
      out := a + b;
    }
  }

  lemma NothingRan(s: State)
    ensures Ran([], {}, {}, s, s, []) && Ran([], {} + {}, {}, s, s, [])
  {
    assert s.rows + [] == s.rows;
  }

  lemma FirstBelow(s: State, above: set<nat>, t: Tree, rest: seq<Tree>)
    requires Below(s, above, PagesOf([t] + rest), SpillOf([t] + rest) + ZonesOf([t] + rest))
    ensures Below(s, above, TreePages(t), TreeSpill(t) + TreeZones(t))
  {
    assert ([t] + rest)[1..] == rest;
    SplitPages(TreePages(t), PagesOf(rest));
    assert forall k :: k in TreePages(t) ==> k in TreePages(t) + PagesOf(rest);
  }

  lemma RestBelow(s: State, above: set<nat>, t: Tree, rest: seq<Tree>, s': State, out: seq<Row>)
    requires Below(s, above, PagesOf([t] + rest), SpillOf([t] + rest) + ZonesOf([t] + rest))
    requires Ran(TreePages(t), TreeSpill(t) + TreeZones(t), TreeBare(t), s, s', out)
    ensures Below(s', above, PagesOf(rest), SpillOf(rest) + ZonesOf(rest))
  {
    assert ([t] + rest)[1..] == rest;
    SplitPages(TreePages(t), PagesOf(rest));
    assert forall k :: k in PagesOf(rest) ==> k in TreePages(t) + PagesOf(rest);
    assert forall k :: k in TreePages(t) ==> k in TreePages(t) + PagesOf(rest);
  }

  lemma JoinRuns(s: State, above: set<nat>, t: Tree, rest: seq<Tree>, s': State, a: seq<Row>, s'': State, b: seq<Row>)
    requires Below(s, above, PagesOf([t] + rest), SpillOf([t] + rest) + ZonesOf([t] + rest))
    requires Ran(TreePages(t), TreeSpill(t) + TreeZones(t), TreeBare(t), s, s', a)
    requires Ran(PagesOf(rest), SpillOf(rest) + ZonesOf(rest), BareOf(rest), s', s'', b)
    ensures Ran(PagesOf([t] + rest), SpillOf([t] + rest) + ZonesOf([t] + rest), BareOf([t] + rest), s, s'', a + b)
  {
    assert ([t] + rest)[1..] == rest;
    SplitPages(TreePages(t), PagesOf(rest));
    BareInPages(rest);
    TreeBareInPages(t);
    assert s.rows + a + b == s.rows + (a + b);
    forall no | no in TreePages(t)
      ensures Get(s'', no) == if no in TreeBare(t) + BareOf(rest) then Damaged else Checked
    {
      assert no in TreePages(t) + PagesOf(rest);
    }
  }
}
