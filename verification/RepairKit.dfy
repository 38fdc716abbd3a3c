/**
  The repair kit at work: the page status array of repair/sqliterk_pager.c, the callbacks of
  repair/sqliterk.c, and the recursive walk of repair/sqliterk_btree.c that uses them.
 */
module RepairKit {
  import opened Common
  import opened RepairBytes
  import opened RepairRecord
  import opened RepairCell
  import opened RepairPages
  import opened RepairTrees
  import opened RepairRuns
  import opened RepairFormat

  /** These interior pages are being checked, and none of them is there twice. */
  ghost predicate OnStack(f: File, pages: set<nat>, s: State, stack: seq<int>)
    requires ValidFile(f)
  {
    && (forall i :: 0 <= i < |stack| ==> IsInner(f, pages, stack[i]) && Get(s, stack[i]) == Checking)
    && forall i, j :: 0 <= i < j < |stack| ==> stack[i] != stack[j]
  }

  /** A page that is not being checked can go on the stack, and fewer pages are left to descend into. */
  lemma PushStack(f: File, pages: set<nat>, s: State, stack: seq<int>, no: int)
    requires ValidFile(f) && |s.status| == |f.pages| && OnStack(f, pages, s, stack)
    requires Get(s, no) != Checking && IsInner(f, pages, no)
    ensures OnStack(f, pages, Set(s, no, Checking), stack + [no])
    ensures Idle(f, pages, Set(s, no, Checking)) < Idle(f, pages, s)
  {
    hide IsInner, Set;
    InFile(f, pages, no);
    forall k: int | IsInner(f, pages, k) ensures 1 <= k <= |f.pages| { InFile(f, pages, k); }
    assert no in Idle(f, pages, s) && no !in Idle(f, pages, Set(s, no, Checking));
  }

  lemma EmptyStack(f: File, pages: set<nat>, s: State)
    requires ValidFile(f)
    ensures OnStack(f, pages, s, [])
  {
  }

  lemma InFile(f: File, pages: set<nat>, no: int)
    requires ValidFile(f) && IsInner(f, pages, no)
    ensures 1 <= no <= |f.pages|
  {
  }

  lemma KeepStack(f: File, pages: set<nat>, s: State, s': State, stack: seq<int>)
    requires ValidFile(f) && OnStack(f, pages, s, stack) && SameStack(f, pages, s, s')
    ensures OnStack(f, pages, s', stack) && Idle(f, pages, s') == Idle(f, pages, s)
  {
    hide IsInner;
  }

  /** What the walk has to respect on the page that it comes to. */
  lemma TameHere(f: File, pages: set<nat>, no: int)
    requires ValidFile(f) && Tame(f, pages) && Within(f, pages, no) && ValidPageno(f, no)
    ensures Decode(f, no).Leaf? ==> TameLeaf(f, pages, no, Decode(f, no).pointers)
    ensures Decode(f, no).Interior? ==> IsInner(f, pages, no) && AllWithin(f, pages, Decode(f, no).children)
  {
    hide Decode, TameLeaf, AllWithin;
    assert TamePage(f, pages, no);
  }

  /** What Parse does, case by case. */
  lemma ParseUnfold(f: File, pages: set<nat>, skip: bool, s: State, no: int)
    requires ValidFile(f) && |s.status| == |f.pages| && Tame(f, pages) && Within(f, pages, no)
    ensures no > |f.pages| || Get(s, no) == Checking ==> Parse(f, pages, skip, s, no) == Outcome(MISUSE, s)
    ensures no <= |f.pages| && Get(s, no) != Checking && !ValidPageno(f, no) ==>
      Parse(f, pages, skip, s, no) == Ended(Outcome(MISUSE, Set(s, no, Checking)), no)
    ensures ValidPageno(f, no) && Get(s, no) != Checking ==>
      Parse(f, pages, skip, s, no) == Ended(ParseOf(f, pages, skip, Set(s, no, Checking), no), no)
  {
    hide Decode, IsInterior, Set, Finish, Get, TameLeaf, RepairPages.ParseCells, RepairPages.ParseChildren;
    if ValidPageno(f, no) { TameHere(f, pages, no); }
  }

  /** The parse of a page that has been begun. */
  ghost function ParseOf(f: File, pages: set<nat>, skip: bool, s: State, no: nat): Outcome
    requires ValidFile(f) && |s.status| == |f.pages| && Tame(f, pages)
    requires Within(f, pages, no) && ValidPageno(f, no)
  {
    TameHere(f, pages, no);
    match Decode(f, no)
    case Bad(rc) => Outcome(rc, s)
    case Skipped => Outcome(OK, s)
    case Leaf(pointers) => if skip then Outcome(OK, s) else RepairPages.ParseCells(f, pages, s, no, pointers)
    case Interior(children) => RepairPages.ParseChildren(f, pages, skip, s, children)
  }

  lemma ChildrenUnfold(f: File, pages: set<nat>, skip: bool, s: State, children: seq<int>, i: nat)
    requires ValidFile(f) && |s.status| == |f.pages| && Tame(f, pages)
    requires i < |children| && AllWithin(f, pages, children)
    ensures Within(f, pages, children[i]) && AllWithin(f, pages, children[i..])
    ensures AllWithin(f, pages, children[i + 1..])
    ensures var o := Parse(f, pages, skip, s, children[i]);
            && (o.rc != FAULT ==> SameStack(f, pages, s, o.s))
            && RepairPages.ParseChildren(f, pages, skip, s, children[i..])
               == if o.rc == FAULT then o else RepairPages.ParseChildren(f, pages, skip, o.s, children[i + 1..])
  {
    hide Parse;
    assert children[i..][1..] == children[i + 1..];
  }

  ghost predicate OnlyTouched(pages: seq<nat>, side: set<nat>, s: State, s': State) {
    forall k: int :: k < 0 || (k !in pages && k !in side) ==> Get(s', k) == Get(s, k)
  }

  /** A repair of one b-tree; skip tells that it is a system table other than the master table. */
  class Repair {
    const file: File
    const skip: bool
    const pagesStatus: array<Status>
    /** The rows handed to the caller's onParseColumn, which accepts them. */
    var rows: seq<Row>

    ghost predicate Valid()
      reads this, pagesStatus
    {
      ValidFile(file) && pagesStatus.Length == |file.pages|
    }

    ghost function Now(): (s: State)
      reads this, pagesStatus
    {
      State(pagesStatus[..], rows)
    }

    constructor (file: File, skip: bool)
      requires ValidFile(file)
      ensures Valid() && this.file == file && this.skip == skip && fresh(pagesStatus)
      ensures rows == [] && forall no: int :: Get(Now(), no) != Checking
    {
      this.file, this.skip, rows := file, skip, [];
      pagesStatus := new Status[|file.pages|](_ => Unchecked);
    }

    /** sqliterkPagerGetStatus */
    method GetStatus(no: int) returns (st: Status)
      requires Valid()
      ensures st == Get(Now(), no)
    {
      if !ValidPageno(file, no) { return Invalid; }
      return pagesStatus[no - 1];
    }

    /** sqliterkPagerSetStatus */
    method SetStatus(no: int, st: Status)
      requires Valid()
      modifies pagesStatus
      ensures Valid() && Now() == Set(old(Now()), no, st)
    {
      if !ValidPageno(file, no) { return; }
      pagesStatus[no - 1] := st;
    }

    /** sqliterkNotify_onBeginParsePage */
    method OnBeginParsePage(no: int) returns (rc: RC)
      requires Valid()
      modifies pagesStatus
      ensures Valid() && rc == if Get(old(Now()), no) == Checking then MISUSE else OK
      ensures Now() == if rc == OK then Set(old(Now()), no, Checking) else old(Now())
    {
      var st := GetStatus(no);
      if st == Checking { return MISUSE; }
      SetStatus(no, Checking);
      return OK;
    }

    /** sqliterkNotify_onEndParsePage */
    method OnEndParsePage(no: int, result: RC)
      requires Valid()
      modifies pagesStatus
      ensures Valid() && Now() == Finish(old(Now()), no, result)
      ensures ValidPageno(file, no) ==>
        pagesStatus[no - 1] == (if result == OK then Checked else if result == DAMAGED then Damaged else Invalid)
    {
      match result
      case OK => SetStatus(no, Checked);
      case DAMAGED => SetStatus(no, Damaged);
      case _ => SetStatus(no, Invalid);
    }

    /** The callbacks for the overflow pages of a cell. */
    method VisitOverflow(pages: seq<nat>)
      requires Valid()
      modifies pagesStatus
      ensures Valid() && Now() == Visit(old(Now()), pages)
    {
      for i := 0 to |pages|
        invariant Valid() && rows == old(rows) && Now() == Visit(old(Now()), pages[..i])
      {
        assert pages[..i + 1][..i] == pages[..i];
        ghost var before := Now();
        var rc := OnBeginParsePage(pages[i]);
        OnEndParsePage(pages[i], OK);
        assert Now() == Set(before, pages[i], Checked);
      }
      assert pages[..|pages|] == pages;
    }

    /** sqliterkBtreeParseCell */
    method ParseCells(no: nat, cellPointerArray: seq<int>, ghost pages: set<nat>) returns (rc: RC)
      requires Valid() && ValidPageno(file, no) && TameLeaf(file, pages, no, cellPointerArray)
      modifies this, pagesStatus
      ensures Valid()
      ensures Outcome(rc, Now()) == RepairPages.ParseCells(file, pages, old(Now()), no, cellPointerArray)
    {
      ghost var all := RepairPages.ParseCells(file, pages, Now(), no, cellPointerArray);
      for i := 0 to |cellPointerArray|
        invariant Valid() && TameLeaf(file, pages, no, cellPointerArray[i..])
        invariant RepairPages.ParseCells(file, pages, Now(), no, cellPointerArray[i..]) == all
      {
        ghost var left := cellPointerArray[i..];
        CellStep(file, pages, Now(), no, left);
        assert left[1..] == cellPointerArray[i + 1..] && left[0] == cellPointerArray[i];
        ghost var before := Now();
        var c := ParseCell(file, no, cellPointerArray[i]);
        VisitOverflow(c.overflow);
        rows := rows + c.rows;
        assert Now() == AfterCell(before, c);
        if c.rc != OK { return c.rc; }
      }
      return OK;
    }

    /** sqliterkBtreeParsePage; `stack` are the pages whose parse this call is part of. */
    method ParsePage(pageno: int, ghost pages: set<nat>, ghost stack: seq<int>) returns (rc: RC)
      requires Valid() && Tame(file, pages) && Within(file, pages, pageno) && OnStack(file, pages, Now(), stack)
      modifies this, pagesStatus
      ensures Valid() && Outcome(rc, Now()) == Parse(file, pages, skip, old(Now()), pageno)
      decreases Idle(file, pages, Now()), 0
    {
      hide Parse, Decode, IsInner, TameLeaf, Set, Finish, Get, RepairPages.ParseCells, RepairPages.ParseChildren, Idle;
      hide OnStack;
      ghost var before := Now();
      ParseUnfold(file, pages, skip, before, pageno);
      if pageno > |file.pages| { return MISUSE; }
      var begin := OnBeginParsePage(pageno);
      if begin != OK { return begin; }
      if !ValidPageno(file, pageno) {
        OnEndParsePage(pageno, MISUSE);
        return MISUSE;
      }
      TameHere(file, pages, pageno);
      var page := ReadPage(file, pageno);
      match page {
        case Bad(error) => rc := error;
        case Skipped => rc := OK;
        case Leaf(pointers) =>
          rc := OK;
          if !skip { rc := ParseCells(pageno, pointers, pages); }
        case Interior(pagenos) =>
          PushStack(file, pages, before, stack, pageno);
          rc := ParseChildren(pagenos, pages, stack + [pageno]);
      }
      if rc == FAULT { return FAULT; }
      OnEndParsePage(pageno, rc);
    }

    /**
      sqliterkBtreeParse of a tree written by the format, possibly with lost children: every row found is
      handed over once, in order, and every page found gets its status, whatever the other pages of the
      file hold.  Of a system table, and of an index of which nothing is lost, no row is handed over.
     */
    method ParseBtree(rootPageno: int, ghost t: Tree) returns (rc: RC)
      requires Valid() && rootPageno == RootOf(t) && TreeWritten(file, {}, t) && PageOne(file)
      requires Apart(Found(t)) && NoneChecking(Now(), TreePages(Found(t)))
      modifies this, pagesStatus
      ensures Valid() && TreeResult(Found(t), rc) && |old(rows)| <= |rows| && rows[..|old(rows)|] == old(rows)
      ensures skip ==> rows == old(rows)
      ensures !skip ==> Yields(Found(t), rows[|old(rows)|..]) && InOrderOf(TreeRows(Found(t)), rows[|old(rows)|..])
      ensures !skip && Whole(Found(t)) ==> rows == old(rows) + TreeRows(Found(t))
      ensures Marked(Now(), TreePages(Found(t)), TreeBare(Found(t)))
      ensures OnlyTouched(TreePages(Found(t)), TreeSpill(Found(t)) + TreeZones(Found(t)), old(Now()), Now())
    {
      hide Parse, TreeWritten, OnStack, TreePages, TreeSpill, TreeZones, TreeBare, TreeRows, Found, Apart, Yields;
      ghost var pages := Reach(Found(t));
      ghost var out := WrittenRun(file, skip, Now(), t);
      EmptyStack(file, pages, Now());
      rc := ParsePage(rootPageno, pages, []);
      assert rows == old(rows) + out && rows[|old(rows)|..] == out;
    }

    /** The loop over the children, whose results are not looked at. */
    method ParseChildren(pagenos: seq<int>, ghost pages: set<nat>, ghost stack: seq<int>)
      returns (rc: RC)
      requires Valid() && Tame(file, pages) && AllWithin(file, pages, pagenos)
      requires OnStack(file, pages, Now(), stack)
      modifies this, pagesStatus
      ensures Valid() && Outcome(rc, Now()) == RepairPages.ParseChildren(file, pages, skip, old(Now()), pagenos)
      decreases Idle(file, pages, Now()), 1
    {
      hide Parse, IsInner, OnStack, Idle, SameStack, Within;
      ghost var all := RepairPages.ParseChildren(file, pages, skip, Now(), pagenos);
      ghost var idle := Idle(file, pages, Now());
      assert pagenos[0..] == pagenos;
      for i := 0 to |pagenos|
        invariant Valid() && OnStack(file, pages, Now(), stack) && Idle(file, pages, Now()) == idle
        invariant RepairPages.ParseChildren(file, pages, skip, Now(), pagenos[i..]) == all
      {
        ghost var before := Now();
        ChildrenUnfold(file, pages, skip, before, pagenos, i);
        var result := ParsePage(pagenos[i], pages, stack);
        if result == FAULT { return FAULT; }
        KeepStack(file, pages, before, Now(), stack);
      }
      return OK;
    }
  }
}
