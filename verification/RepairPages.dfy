/**
  The walk over the pages of a b-tree: sqliterkBtreeParsePage of repair/sqliterk_btree.c with the page
  status that repair/sqliterk.c keeps in its callbacks.
 */
module RepairPages {
  import opened Common
  import opened RepairBytes
  import opened RepairRecord
  import opened RepairCell

  /** sqliterk_status */
  datatype Status = Invalid | Unchecked | Checking | Damaged | Discarded | Checked

  // ---------------------------------------------------------------------------------------------
  // What is on a page

  datatype Decoded = Interior(children: seq<int>) | Leaf(pointers: seq<int>) | Skipped | Bad(rc: RC)

  /** sqliterkPagenoHeaderOffset */
  function HeaderOffset(no: nat): nat {
    if no == 1 then 100 else 0
  }

  datatype Numbers = Numbers(list: seq<int>) | Outside

  /** The integers of k bytes at the offsets `at`; Outside if one of them is not inside the page. */
  function ReadAll(page: seq<Byte>, at: seq<int>, k: nat): (r: Numbers)
    requires k == 2 || k == 4
    ensures r.Numbers? ==> |r.list| == |at| && forall i :: 0 <= i < |at| ==>
      ParseInt64(page, at[i], k) == Int(r.list[i])
    ensures r.Outside? ==> exists i :: 0 <= i < |at| && ParseInt64(page, at[i], k) == IntOutside
  {
    if at == [] then Numbers([])
    else
      var front := ReadAll(page, at[..|at| - 1], k);
      var last := ParseInt64(page, at[|at| - 1], k);
      if front.Outside? || last.IntOutside? then Outside else Numbers(front.list + [last.value])
  }

  /** Where the cell pointers are. */
  function PointerOffsets(no: nat, first: nat, count: nat): (s: seq<int>)
    ensures |s| == count && forall i :: 0 <= i < count ==> s[i] == HeaderOffset(no) + first + i * 2
  {
    seq(count, i => HeaderOffset(no) + first + i * 2)
  }

  /** sqliterkPageAcquireOne: the type byte, as a signed integer. */
  function PageType(f: File, no: nat): int
    requires ValidFile(f) && ValidPageno(f, no)
  {
    ParseInt64(f.pages[no - 1], HeaderOffset(no), 1).value
  }

  function CellsCount(f: File, no: nat): int
    requires ValidFile(f) && ValidPageno(f, no)
  {
    ParseInt64(f.pages[no - 1], 3 + HeaderOffset(no), 2).value
  }

  const INTERIOR_INDEX := 2
  const INTERIOR_TABLE := 5
  const LEAF_INDEX := 10
  const LEAF_TABLE := 13

  /** What sqliterkBtreeParsePage finds on a page; the right-most child is read at offset 8 of every page. */
  function Decode(f: File, no: nat): (d: Decoded)
    requires ValidFile(f) && ValidPageno(f, no)
    ensures d.Bad? ==> d.rc == DAMAGED || d.rc == FAULT
  {
    var page, t, count := f.pages[no - 1], PageType(f, no), CellsCount(f, no);
    var first := if t == INTERIOR_TABLE then 12 else 8;
    if t !in {INTERIOR_INDEX, INTERIOR_TABLE, LEAF_INDEX, LEAF_TABLE} then Bad(DAMAGED)
    else if count <= 0 || count * 2 + first > f.pageSize then Bad(DAMAGED)
    else
      var pointers := ReadAll(page, PointerOffsets(no, first, count), 2);
      if pointers.Outside? then Bad(FAULT)
      else if t == LEAF_TABLE then Leaf(pointers.list)
      else if t == LEAF_INDEX then Skipped
      else
        var children := ReadAll(page, pointers.list + (if t == INTERIOR_TABLE then [8] else []), 4);
        if children.Outside? then Bad(FAULT) else Interior(children.list)
  }

  /** The loop that reads the integers at the given offsets. */
  method ReadNumbers(page: seq<Byte>, at: seq<int>, k: nat) returns (r: Numbers)
    requires k == 2 || k == 4
    ensures r == ReadAll(page, at, k)
  {
    hide ParseInt64, Signed;
    var list := [];
    for i := 0 to |at|
      invariant ReadAll(page, at[..i], k) == Numbers(list)
    {
      assert at[..i + 1][..i] == at[..i];
      var v := ParseInt64(page, at[i], k);
      if v.IntOutside? {
        OutsideStays(page, at, k, i + 1);
        return Outside;
      }
      list := list + [v.value];
    }
    assert at[..|at|] == at;
    return Numbers(list);
  }

  lemma {:induction false} OutsideStays(page: seq<Byte>, at: seq<int>, k: nat, n: nat)
    requires (k == 2 || k == 4) && n <= |at| && ReadAll(page, at[..n], k).Outside?
    ensures ReadAll(page, at, k).Outside?
    decreases |at|
  {
    if n == |at| {
      assert at[..n] == at;
    } else {
      assert at[..|at| - 1][..n] == at[..n];
      OutsideStays(page, at[..|at| - 1], k, n);
    }
  }

  /** The part of sqliterkBtreeParsePage that reads the page. */
  method ReadPage(f: File, no: nat) returns (d: Decoded)
    requires ValidFile(f) && ValidPageno(f, no)
    ensures d == Decode(f, no)
  {
    hide ReadAll, ParseInt64, PointerOffsets;
    var pagedata := f.pages[no - 1];
    var t := PageType(f, no);
    if t != INTERIOR_INDEX && t != INTERIOR_TABLE && t != LEAF_INDEX && t != LEAF_TABLE { return Bad(DAMAGED); }
    var first := if t == INTERIOR_TABLE then 12 else 8;
    var cellsCount := CellsCount(f, no);
    if cellsCount <= 0 || cellsCount * 2 + first > f.pageSize { return Bad(DAMAGED); }
    var cellPointerArray := ReadNumbers(pagedata, PointerOffsets(no, first, cellsCount), 2);
    if cellPointerArray.Outside? { return Bad(FAULT); }
    if t == LEAF_TABLE { return Leaf(cellPointerArray.list); }
    if t == LEAF_INDEX { return Skipped; }
    var pagenos := ReadNumbers(pagedata, cellPointerArray.list + (if t == INTERIOR_TABLE then [8] else []), 4);
    if pagenos.Outside? { return Bad(FAULT); }
    return Interior(pagenos.list);
  }

  // ---------------------------------------------------------------------------------------------
  // The walk as a function of the page status and the rows delivered so far

  datatype State = State(status: seq<Status>, rows: seq<Row>)

  datatype Outcome = Outcome(rc: RC, s: State)

  /** sqliterkPagerGetStatus */
  function Get(s: State, no: int): Status {
    if 1 <= no <= |s.status| then s.status[no - 1] else Invalid
  }

  /** sqliterkPagerSetStatus */
  function Set(s: State, no: int, st: Status): (s': State)
    ensures |s'.status| == |s.status| && s'.rows == s.rows
    ensures forall k: int :: Get(s', k) == if k == no && 1 <= no <= |s.status| then st else Get(s, k)
  {
    if 1 <= no <= |s.status| then s.(status := s.status[no - 1 := st]) else s
  }

  /** sqliterkNotify_onEndParsePage */
  function Finish(s: State, no: int, rc: RC): (s': State)
    ensures |s'.status| == |s.status| && s'.rows == s.rows
    ensures forall k: int :: k != no ==> Get(s', k) == Get(s, k)
    ensures Get(s', no) != Checking
  {
    Set(s, no, if rc == OK then Checked else if rc == DAMAGED then Damaged else Invalid)
  }

  /** The end of a page's parse, unless a read outside of a buffer has ended everything. */
  function Ended(o: Outcome, no: int): (o': Outcome)
    ensures o'.rc == o.rc && |o'.s.status| == |o.s.status|
    ensures forall k: int :: k != no ==> Get(o'.s, k) == Get(o.s, k)
    ensures o.rc != FAULT ==> Get(o'.s, no) != Checking
  {
    if o.rc == FAULT then o else Outcome(o.rc, Finish(o.s, no, o.rc))
  }

  /** The overflow pages of a cell are begun and ended. */
  function Visit(s: State, pages: seq<nat>): (s': State)
    ensures |s'.status| == |s.status| && s'.rows == s.rows
    ensures forall k: int :: k !in pages ==> Get(s', k) == Get(s, k)
    ensures forall k: nat :: k in pages && 1 <= k <= |s.status| ==> Get(s', k) == Checked
  {
    if pages == [] then s else Set(Visit(s, pages[..|pages| - 1]), pages[|pages| - 1], Checked)
  }

  predicate IsInterior(f: File, no: int)
    requires ValidFile(f)
  {
    ValidPageno(f, no) && Decode(f, no).Interior?
  }

  /** An interior page among `pages`, the ones a walk can come to. */
  predicate IsInner(f: File, pages: set<nat>, no: int)
    requires ValidFile(f)
  {
    no >= 0 && no in pages && IsInterior(f, no)
  }

  /** Those that are not being checked; only these can be descended into. */
  ghost function Idle(f: File, pages: set<nat>, s: State): set<int>
    requires ValidFile(f)
  {
    set no: int | 1 <= no <= |f.pages| && IsInner(f, pages, no) && Get(s, no) != Checking
  }

  /**
    What the guard relies on in a damaged file: every overflow chain that a walk over `pages` can come to
    ends and leads to no interior page of the walk.  Children are among `pages`; nothing is said of any
    other page of the file.
   */
  ghost predicate Tame(f: File, pages: set<nat>)
    requires ValidFile(f)
  {
    forall no :: no in pages && ValidPageno(f, no) ==> TamePage(f, pages, no)
  }

  ghost predicate TamePage(f: File, pages: set<nat>, no: nat)
    requires ValidFile(f) && ValidPageno(f, no)
  {
    match Decode(f, no)
    case Leaf(pointers) => TameLeaf(f, pages, no, pointers)
    case Interior(children) => AllWithin(f, pages, children)
    case _ => true
  }

  ghost predicate TameLeaf(f: File, pages: set<nat>, no: nat, pointers: seq<int>)
    requires ValidFile(f) && ValidPageno(f, no)
  {
    forall p :: p in pointers ==>
      CellEnds(f, no, p) && forall k :: k in CellAt(f, no, p).overflow ==> !IsInner(f, pages, k)
  }

  /** These pages, as far as the file has them, are among `pages`. */
  ghost predicate AllWithin(f: File, pages: set<nat>, list: seq<int>) {
    forall no :: no in list ==> Within(f, pages, no)
  }

  predicate Within(f: File, pages: set<nat>, no: int) {
    ValidPageno(f, no) ==> no in pages
  }

  /** The same interior pages are being checked. */
  ghost predicate SameStack(f: File, pages: set<nat>, s: State, s': State)
    requires ValidFile(f)
  {
    && |s'.status| == |s.status|
    && forall no: int :: IsInner(f, pages, no) ==> (Get(s', no) == Checking <==> Get(s, no) == Checking)
  }

  lemma SameStackTrans(f: File, pages: set<nat>, s: State, t: State, u: State)
    requires ValidFile(f) && SameStack(f, pages, s, t) && SameStack(f, pages, t, u)
    ensures SameStack(f, pages, s, u)
  {
    hide IsInner;
  }

  /** The state after a cell: its overflow pages have been visited and its row delivered. */
  ghost function AfterCell(s: State, c: CellResult): State {
    Visit(s, c.overflow).(rows := s.rows + c.rows)
  }

  lemma CellStep(f: File, pages: set<nat>, s: State, no: nat, pointers: seq<int>)
    requires ValidFile(f) && ValidPageno(f, no) && TameLeaf(f, pages, no, pointers) && pointers != []
    ensures SameStack(f, pages, s, AfterCell(s, CellAt(f, no, pointers[0])))
    ensures TameLeaf(f, pages, no, pointers[1..])
  {
    hide IsInner, CellAt, CellEnds, Visit;
    assert pointers[0] in pointers;
  }

  /** sqliterkBtreeParseCell: the cells in order, up to the first one that cannot be read. */
  ghost function ParseCells(f: File, pages: set<nat>, s: State, no: nat, pointers: seq<int>): (o: Outcome)
    requires ValidFile(f) && ValidPageno(f, no) && TameLeaf(f, pages, no, pointers)
    ensures SameStack(f, pages, s, o.s)
    decreases |pointers|
  {
    if pointers == [] then Outcome(OK, s)
    else
      var c := CellAt(f, no, pointers[0]);
      CellStep(f, pages, s, no, pointers);
      if c.rc != OK then Outcome(c.rc, AfterCell(s, c))
      else
        var o := ParseCells(f, pages, AfterCell(s, c), no, pointers[1..]);
        SameStackTrans(f, pages, s, AfterCell(s, c), o.s);
        o
  }

  /**
    sqliterkBtreeParsePage.  skip: the tree is a system table other than the master table.  A read outside
    of a buffer ends the whole walk.
   */
  ghost function Parse(f: File, pages: set<nat>, skip: bool, s: State, no: int): (o: Outcome)
    requires ValidFile(f) && |s.status| == |f.pages| && Tame(f, pages) && Within(f, pages, no)
    ensures |o.s.status| == |f.pages| && (o.rc != FAULT ==> SameStack(f, pages, s, o.s))
    decreases Idle(f, pages, s), 0
  {
    if no > |f.pages| || Get(s, no) == Checking then Outcome(MISUSE, s)
    else
      var s1 := Set(s, no, Checking);
      if !ValidPageno(f, no) then Ended(Outcome(MISUSE, s1), no)
      else
        assert TamePage(f, pages, no);
        var d := Decode(f, no);
        var o :=
          match d
          case Bad(rc) => Outcome(rc, s1)
          case Skipped => Outcome(OK, s1)
          case Leaf(pointers) => if skip then Outcome(OK, s1) else ParseCells(f, pages, s1, no, pointers)
          case Interior(children) =>
            assert Idle(f, pages, s1) == Idle(f, pages, s) - {no} && no in Idle(f, pages, s);
            ParseChildren(f, pages, skip, s1, children);
        Ended(o, no)
  }

  /** The recursive calls; their results are not looked at. */
  ghost function ParseChildren(f: File, pages: set<nat>, skip: bool, s: State,
                               children: seq<int>): (o: Outcome)
    requires ValidFile(f) && |s.status| == |f.pages| && Tame(f, pages) && AllWithin(f, pages, children)
    ensures |o.s.status| == |f.pages| && (o.rc != FAULT ==> o.rc == OK && SameStack(f, pages, s, o.s))
    decreases Idle(f, pages, s), |children|
  {
    if children == [] then Outcome(OK, s)
    else
      var o := Parse(f, pages, skip, s, children[0]);
      if o.rc == FAULT then o
      else
        assert Idle(f, pages, o.s) == Idle(f, pages, s);
        ParseChildren(f, pages, skip, o.s, children[1..])
  }
}
