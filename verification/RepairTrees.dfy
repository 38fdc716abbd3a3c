/**
  What the walk of repair/sqliterk_btree.c finds of a b-tree that is stored in the file, in part or as a
  whole.
 */
module RepairTrees {
  import opened Common
  import opened RepairBytes
  import opened RepairRecord
  import opened RepairCell
  import opened RepairPages

  /**
    A b-tree: table leaves with their rows and the overflow pages of each, index leaves with cells, interior
    pages with their children from left to right, and children that are lost: whatever is at that page number
    leads only to pages of the zone.
   */
  datatype Tree =
    | LeafPage(no: nat, rows: seq<Row>, chains: seq<seq<nat>>)
    | IndexLeaf(no: nat)
    | InteriorPage(no: nat, kids: seq<Tree>)
    | LostPage(at: int, zone: set<nat>)

  function RootOf(t: Tree): int {
    if t.LostPage? then t.at else t.no
  }

  function Roots(ts: seq<Tree>): (r: seq<int>)
    ensures |r| == |ts| && forall i :: 0 <= i < |ts| ==> r[i] == RootOf(ts[i])
  {
    seq(|ts|, i requires 0 <= i < |ts| => RootOf(ts[i]))
  }

  /** The tree is stored in the file, below the pages `above`. */
  ghost predicate Stored(f: File, above: set<nat>, t: Tree)
    requires ValidFile(f)
    decreases t
  {
    match t
    case LeafPage(no, rows, chains) =>
      && ValidPageno(f, no)
      && if rows == [] then chains == [] && Decode(f, no) == Bad(DAMAGED)
         else Decode(f, no).Leaf? && AllRead(f, no, Decode(f, no).pointers, rows, chains)
    case IndexLeaf(no) =>
      ValidPageno(f, no) && Decode(f, no) == Skipped
    case InteriorPage(no, kids) =>
      && ValidPageno(f, no) && Decode(f, no) == Interior(Roots(kids))
      && forall i :: 0 <= i < |kids| ==> Stored(f, above + {no}, kids[i])
    case LostPage(at, zone) =>
      Contained(f, above, zone) && StaysIn(f, above, zone, at)
  }

  /** The cells are read without an error and give these rows, by way of these overflow pages. */
  ghost predicate AllRead(f: File, no: nat, pointers: seq<int>, rows: seq<Row>, chains: seq<seq<nat>>)
    requires ValidFile(f) && ValidPageno(f, no)
  {
    |rows| == |pointers| == |chains| && forall i :: 0 <= i < |rows| ==> ReadAs(f, no, pointers[i], rows[i], chains[i])
  }

  ghost predicate ReadAs(f: File, no: nat, pointer: int, row: Row, chain: seq<nat>)
    requires ValidFile(f) && ValidPageno(f, no)
  {
    CellEnds(f, no, pointer) && CellAt(f, no, pointer) == Cell(OK, [row], chain)
  }

  /** From page `no` on, if there is one, the walk stays in the zone, or is refused by a page that it is below. */
  predicate StaysIn(f: File, above: set<nat>, zone: set<nat>, no: int) {
    ValidPageno(f, no) ==> no in zone || no in above
  }

  /** Nothing leads out of the zone, and nothing in it ends the whole walk. */
  ghost predicate Contained(f: File, above: set<nat>, zone: set<nat>)
    requires ValidFile(f)
  {
    zone !! above && forall no :: no in zone && ValidPageno(f, no) ==> ContainedPage(f, above, zone, no)
  }

  ghost predicate ContainedPage(f: File, above: set<nat>, zone: set<nat>, no: nat)
    requires ValidFile(f) && ValidPageno(f, no)
  {
    match Decode(f, no)
    case Bad(rc) => rc != FAULT
    case Skipped => true
    case Interior(children) => forall c :: c in children ==> StaysIn(f, above, zone, c)
    case Leaf(pointers) => ContainedCells(f, zone, no, pointers)
  }

  ghost predicate ContainedCells(f: File, zone: set<nat>, no: nat, pointers: seq<int>)
    requires ValidFile(f) && ValidPageno(f, no)
  {
    forall p :: p in pointers ==>
      && CellEnds(f, no, p) && CellAt(f, no, p).rc != FAULT
      && forall k :: k in CellAt(f, no, p).overflow ==> k in zone && !IsInterior(f, k)
  }

  // ---------------------------------------------------------------------------------------------
  // The parts of a tree

  /** The pages of the trees, every page before those below it, but for lost ones. */
  ghost function PagesOf(ts: seq<Tree>): seq<nat>
    decreases ts, 1
  {
    if ts == [] then [] else TreePages(ts[0]) + PagesOf(ts[1..])
  }

  ghost function TreePages(t: Tree): seq<nat>
    decreases t, 2
  {
    match t
    case LeafPage(no, _, _) => [no]
    case IndexLeaf(no) => [no]
    case InteriorPage(no, kids) => [no] + PagesOf(kids)
    case LostPage(_, _) => []
  }

  /** The rows of the leaves from left to right. */
  ghost function RowsOf(ts: seq<Tree>): seq<Row>
    decreases ts, 1
  {
    if ts == [] then [] else TreeRows(ts[0]) + RowsOf(ts[1..])
  }

  ghost function TreeRows(t: Tree): seq<Row>
    decreases t, 2
  {
    match t
    case LeafPage(_, rows, _) => rows
    case IndexLeaf(_) => []
    case InteriorPage(_, kids) => RowsOf(kids)
    case LostPage(_, _) => []
  }

  /** The overflow pages. */
  ghost function SpillOf(ts: seq<Tree>): set<nat>
    decreases ts, 1
  {
    if ts == [] then {} else TreeSpill(ts[0]) + SpillOf(ts[1..])
  }

  ghost function TreeSpill(t: Tree): set<nat>
    decreases t, 2
  {
    match t
    case LeafPage(_, _, chains) => InChains(chains)
    case IndexLeaf(_) => {}
    case InteriorPage(_, kids) => SpillOf(kids)
    case LostPage(_, _) => {}
  }

  ghost function InChains(chains: seq<seq<nat>>): (pages: set<nat>)
    ensures forall i, k :: 0 <= i < |chains| && k in chains[i] ==> k in pages
  {
    if chains == [] then {} else InChains(chains[..|chains| - 1]) + Members(chains[|chains| - 1])
  }

  ghost function Members(s: seq<nat>): (r: set<nat>)
    ensures forall k :: k in r <==> k in s
  {
    set k | k in s
  }

  /** The zones of the lost children. */
  ghost function ZonesOf(ts: seq<Tree>): set<nat>
    decreases ts, 1
  {
    if ts == [] then {} else TreeZones(ts[0]) + ZonesOf(ts[1..])
  }

  ghost function TreeZones(t: Tree): set<nat>
    decreases t, 2
  {
    match t
    case LeafPage(_, _, _) => {}
    case IndexLeaf(_) => {}
    case InteriorPage(_, kids) => ZonesOf(kids)
    case LostPage(_, zone) => zone
  }

  /** The leaves without a cell. */
  ghost function BareOf(ts: seq<Tree>): set<nat>
    decreases ts, 1
  {
    if ts == [] then {} else TreeBare(ts[0]) + BareOf(ts[1..])
  }

  ghost function TreeBare(t: Tree): set<nat>
    decreases t, 2
  {
    match t
    case LeafPage(no, rows, _) => if rows == [] then {no} else {}
    case IndexLeaf(_) => {}
    case InteriorPage(_, kids) => BareOf(kids)
    case LostPage(_, _) => {}
  }

  lemma {:induction false} BareInPages(ts: seq<Tree>)
    ensures forall no :: no in BareOf(ts) ==> no in PagesOf(ts)
    decreases ts, 1
  {
    if ts != [] {
      TreeBareInPages(ts[0]);
      BareInPages(ts[1..]);
    }
  }

  lemma {:induction false} TreeBareInPages(t: Tree)
    ensures forall no :: no in TreeBare(t) ==> no in TreePages(t)
    decreases t, 2
  {
    if t.InteriorPage? { BareInPages(t.kids); }
  }

  /** The pages the walk can come to. */
  ghost function Reach(t: Tree): (pages: set<nat>)
    ensures forall no :: no in pages <==> no in TreePages(t) || no in TreeZones(t)
  {
    Members(TreePages(t)) + TreeZones(t)
  }

  ghost predicate Disjoint(pages: seq<nat>, side: set<nat>) {
    forall k :: k in pages ==> k !in side
  }

  /**
    No page is in the tree twice, none of its pages is also an overflow page or in the zone of a lost child, and
    no overflow page is in such a zone.
   */
  ghost predicate Apart(t: Tree) {
    && NoRepeats(TreePages(t)) && Disjoint(TreePages(t), TreeSpill(t) + TreeZones(t))
    && TreeSpill(t) !! TreeZones(t)
  }

  /** Nothing is lost; a page number that is refused at once counts for nothing. */
  ghost predicate Whole(t: Tree)
    decreases t
  {
    match t
    case LeafPage(_, _, _) => true
    case IndexLeaf(_) => true
    case InteriorPage(_, kids) => forall i :: 0 <= i < |kids| ==> Whole(kids[i])
    case LostPage(_, zone) => zone == {}
  }

  // ---------------------------------------------------------------------------------------------
  // The rows that are delivered

  /** out has the rows of the leaves in order, with any rows for what is lost, and none if that is nothing. */
  ghost predicate Yields(t: Tree, out: seq<Row>)
    decreases t, 2
  {
    match t
    case LeafPage(_, rows, _) => out == rows
    case IndexLeaf(_) => out == []
    case InteriorPage(_, kids) => KidsYield(kids, out)
    case LostPage(_, zone) => zone == {} ==> out == []
  }

  ghost predicate KidsYield(ts: seq<Tree>, out: seq<Row>)
    decreases ts, 1
  {
    if ts == [] then out == []
    else exists k: nat :: k <= |out| && Yields(ts[0], out[..k]) && KidsYield(ts[1..], out[k..])
  }

  lemma YieldsBoth(ts: seq<Tree>, a: seq<Row>, b: seq<Row>)
    requires ts != [] && Yields(ts[0], a) && KidsYield(ts[1..], b)
    ensures KidsYield(ts, a + b)
  {
    var k: nat := |a|;
    assert (a + b)[..k] == a && (a + b)[k..] == b;
  }

  /** A whole tree yields its rows and nothing else. */
  lemma {:induction false} WholeYields(t: Tree, out: seq<Row>)
    requires Whole(t) && Yields(t, out)
    ensures out == TreeRows(t)
    decreases t, 2
  {
    if t.InteriorPage? { KidsYieldWhole(t.kids, out); }
  }

  lemma {:induction false} KidsYieldWhole(ts: seq<Tree>, out: seq<Row>)
    requires (forall i :: 0 <= i < |ts| ==> Whole(ts[i])) && KidsYield(ts, out)
    ensures out == RowsOf(ts)
    decreases ts, 1
  {
    if ts != [] {
      var k: nat :| k <= |out| && Yields(ts[0], out[..k]) && KidsYield(ts[1..], out[k..]);
      assert Whole(ts[0]);
      WholeYields(ts[0], out[..k]);
      KidsYieldWhole(ts[1..], out[k..]);
      assert out == out[..k] + out[k..];
    }
  }

  /** And whatever is lost, no row of an intact leaf is: they all come, in their order. */
  lemma {:induction false} YieldsKeep(t: Tree, out: seq<Row>)
    requires Yields(t, out)
    ensures InOrderOf(TreeRows(t), out)
    decreases t, 2
  {
    match t {
      case LeafPage(_, rows, _) => InOrderOfSelf(rows);
      case IndexLeaf(_) => assert Embeds([], TreeRows(t), out);
      case InteriorPage(_, kids) => KidsYieldKeep(kids, out);
      case LostPage(_, _) => assert Embeds([], TreeRows(t), out);
    }
  }

  lemma {:induction false} KidsYieldKeep(ts: seq<Tree>, out: seq<Row>)
    requires KidsYield(ts, out)
    ensures InOrderOf(RowsOf(ts), out)
    decreases ts, 1
  {
    if ts == [] {
      assert Embeds([], RowsOf(ts), out);
    } else {
      var k: nat :| k <= |out| && Yields(ts[0], out[..k]) && KidsYield(ts[1..], out[k..]);
      YieldsKeep(ts[0], out[..k]);
      KidsYieldKeep(ts[1..], out[k..]);
      InOrderOfBoth(TreeRows(ts[0]), out[..k], RowsOf(ts[1..]), out[k..]);
      assert out == out[..k] + out[k..];
    }
  }

  lemma InOrderOfSelf<T>(s: seq<T>)
    ensures InOrderOf(s, s)
  {
    var at := seq(|s|, i requires 0 <= i => i);
    assert Embeds(at, s, s);
  }

  lemma InOrderOfBoth<T>(a: seq<T>, s: seq<T>, b: seq<T>, t: seq<T>)
    requires InOrderOf(a, s) && InOrderOf(b, t)
    ensures InOrderOf(a + b, s + t)
  {
    var at :| Embeds(at, a, s);
    var bt :| Embeds(bt, b, t);
    var both: seq<nat> := at + seq(|bt|, i requires 0 <= i < |bt| => |s| + bt[i]);
    assert Embeds(both, a + b, s + t);
  }
}
