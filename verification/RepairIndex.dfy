/**
  What the walk of repair/sqliterk_btree.c makes of an index: its leaves are skipped, and the children of its
  interior pages are missed, because their headers are taken to be as short as those of leaves.
 */
module RepairIndex {
  import opened Common
  import opened RepairBytes
  import opened RepairRecord
  import opened RepairCell
  import opened RepairPages
  import opened RepairTrees
  import opened RepairRuns
  import opened RepairFormat

  /** All that is found of the tree are index pages. */
  ghost predicate IndexTree(t: Tree)
    decreases t
  {
    match t
    case LeafPage(_, rows, _) => rows == []
    case InteriorPage(_, kids) => forall i :: 0 <= i < |kids| ==> IndexTree(kids[i])
    case _ => true
  }

  /** An index has no rows to deliver. */
  lemma {:induction false} IndexHasNoRows(t: Tree)
    requires IndexTree(t)
    ensures TreeRows(t) == []
    decreases t, 2
  {
    if t.InteriorPage? { IndexKidsHaveNoRows(t.kids); }
  }

  lemma {:induction false} IndexKidsHaveNoRows(ts: seq<Tree>)
    requires forall i :: 0 <= i < |ts| ==> IndexTree(ts[i])
    ensures RowsOf(ts) == []
    decreases ts, 1
  {
    if ts != [] {
      IndexHasNoRows(ts[0]);
      IndexKidsHaveNoRows(ts[1..]);
    }
  }

  /** An index leaf with a cell is checked, whatever its cells hold, and nothing is delivered. */
  lemma IndexLeafOnItsOwn(f: File, skip: bool, s: State, no: nat, pointers: seq<nat>)
    requires ValidFile(f) && |s.status| == |f.pages| && ValidPageno(f, no) && Get(s, no) != Checking
    requires PageWritten(f, no, 10, pointers) && pointers != []
    ensures Tame(f, {no}) && Within(f, {no}, no)
    ensures var o := Parse(f, {no}, skip, s, no);
            && o.rc == OK && o.s.rows == s.rows && Get(o.s, no) == Checked
            && forall k: int :: k != no ==> Get(o.s, k) == Get(s, k)
  {
    hide Decode, Parse, TamePage;
    IndexLeafDecodes(f, no, pointers);
    IndexLeafIsTame(f, {no}, no);
    IndexLeafRun(f, {no}, skip, s, {}, IndexLeaf(no));
    assert no in [no] && s.rows + [] == s.rows;
  }

  // ---------------------------------------------------------------------------------------------
  // An index of three pages

  /** An interior index page with one cell, at offset 256, and the children 3 and 4. */
  function IndexRoot(): (page: seq<Byte>)
    ensures |page| == 512
  {
    seq(512, i requires 0 <= i < 512 =>
      if i == 0 then 2 else if i == 4 || i == 12 then 1 else if i == 11 then 4 else if i == 259 then 3 else 0)
  }

  /** An index leaf with one cell, at offset 100. */
  function IndexEntry(): (page: seq<Byte>)
    ensures |page| == 512
  {
    seq(512, i requires 0 <= i < 512 => if i == 0 then 10 else if i == 4 then 1 else if i == 9 then 100 else 0)
  }

  function IndexFile(): (f: File)
    ensures ValidFile(f) && |f.pages| == 4
  {
    File([seq(512, _ => 0), IndexRoot(), IndexEntry(), IndexEntry()], 512, 512)
  }

  /** The walk from page 2 comes neither to page 3 nor to page 4, but checks page 2. */
  lemma IndexChildrenAreMissed(s: State)
    requires |s.status| == 4 && Get(s, 2) != Checking
    ensures var f := IndexFile();
            && InteriorWritten(f, 2, 2, [256], [3, 4]) && PageWritten(f, 3, 10, [100]) && PageWritten(f, 4, 10, [100])
            && Tame(f, {2}) && Within(f, {2}, 2)
            && var o := Parse(f, {2}, false, s, 2);
               o.rc == OK && Get(o.s, 2) == Checked && forall k: int :: k != 2 ==> Get(o.s, k) == Get(s, k)
  {
    IndexPagesWritten();
    IndexRootDecodes();
    hide IndexFile, InteriorWritten, PageWritten;
    StrayRun(IndexFile(), s);
  }

  /** An interior page with one child, which is not in the file. */
  lemma StrayRun(f: File, s: State)
    requires ValidFile(f) && |s.status| == |f.pages| == 4
    requires Decode(f, 2) == Interior([33554432]) && Get(s, 2) != Checking
    ensures Tame(f, {2}) && Within(f, {2}, 2)
    ensures var o := Parse(f, {2}, false, s, 2);
            o.rc == OK && Get(o.s, 2) == Checked && forall k: int :: k != 2 ==> Get(o.s, k) == Get(s, k)
  {
    hide Decode, TamePage, Stored, Tame, Parse;
    var t := Stray();
    StrayIsStored(f);
    StoredIsTame(f, t);
    var out := TreeRun(f, {2}, false, s, {}, t);
    assert 2 in [2];
  }

  function Stray(): Tree {
    InteriorPage(2, [LostPage(33554432, {})])
  }

  lemma StrayIsStored(f: File)
    requires ValidFile(f) && |f.pages| == 4 && Decode(f, 2) == Interior([33554432])
    ensures Stored(f, {}, Stray()) && Apart(Stray()) && Reach(Stray()) == {2}
    ensures TreePages(Stray()) == [2] && TreeSpill(Stray()) == {} && TreeZones(Stray()) == {} && TreeBare(Stray()) == {}
  {
    hide Decode;
    assert Stray().kids[1..] == [] && Roots(Stray().kids) == [33554432];
  }

  lemma IndexBytes()
    ensures IndexRoot()[0] == 2 && IndexRoot()[3..5] == [0, 1] && IndexRoot()[12..14] == [1, 0]
    ensures IndexRoot()[256..260] == [0, 0, 0, 3] && IndexRoot()[8..12] == [0, 0, 0, 4]
    ensures IndexRoot()[0..4] == [2, 0, 0, 0]
    ensures IndexEntry()[0] == 10 && IndexEntry()[3..5] == [0, 1] && IndexEntry()[8..10] == [0, 100]
  {
  }

  lemma IndexPagesWritten()
    ensures var f := IndexFile();
      InteriorWritten(f, 2, 2, [256], [3, 4]) && PageWritten(f, 3, 10, [100]) && PageWritten(f, 4, 10, [100])
  {
    IndexBytes();
    TwoBytes(1);
    TwoBytes(256);
    TwoBytes(100);
    FourBytes(3);
    FourBytes(4);
    hide IndexRoot, IndexEntry, BigEndian;
    var f := IndexFile();
    assert PointerWritten(f.pages[1], 12, 256) && PointerWritten(f.pages[2], 8, 100);
    assert ChildWritten(f.pages[1], 256, 3) && ChildWritten(f.pages[1], 8, 4);
  }

  lemma IndexRootDecodes()
    ensures Decode(IndexFile(), 2) == Interior([33554432])
  {
    var f := IndexFile();
    IndexPagesWritten();
    IndexBytes();
    hide Decode, IndexRoot, IndexEntry;
    IndexInteriorDecodes(f, 2, [256], [3, 4]);
    assert Halves(4) == [0, 4];
    Signed4(f.pages[1][0..4]);
    assert Decode(f, 2).children[0] == 33554432;
  }
}
