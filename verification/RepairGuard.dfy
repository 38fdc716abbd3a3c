/**
  Why the walk of repair/sqliterk_btree.c needs its overflow chains to stay off the pages that it is in the
  middle of: an overflow page is marked as checked when it has been read, so that the guard against
  cycles then lets the walk enter it once more.
 */
module RepairGuard {
  import opened Common
  import opened RepairBytes
  import opened RepairRecord
  import opened RepairCell
  import opened RepairPages
  import opened RepairFormat

  /**
    Page 2 has the children 3 and 2, and page 3 is a leaf with a cell that can be read and whose overflow
    chain comes to page 2.
   */
  ghost predicate Trap(f: File, p: int)
    requires ValidFile(f)
  {
    && |f.pages| >= 3 && Decode(f, 2) == Interior([3, 2]) && Decode(f, 3) == Leaf([p])
    && CellEnds(f, 3, p) && CellAt(f, 3, p).rc == OK && 2 in CellAt(f, 3, p).overflow && 3 !in CellAt(f, 3, p).overflow
  }

  /** Neither page is being checked, so that a call for either is accepted. */
  predicate Open(s: State) {
    Get(s, 2) != Checking && Get(s, 3) != Checking
  }

  /** The state in which a call for page 2 makes the call for its second child, after the first has returned. */
  ghost function AtSecondChild(f: File, p: int, s: State): State
    requires ValidFile(f) && Trap(f, p)
  {
    TameForNone(f, p);
    Ended(ParseCells(f, {}, Set(Set(s, 2, Checking), 3, Checking), 3, [p]), 3).s
  }

  lemma TameForNone(f: File, p: int)
    requires ValidFile(f) && Trap(f, p)
    ensures TameLeaf(f, {}, 3, [p])
  {
    hide Decode, CellAt, CellEnds, IsInterior;
  }

  /** The state in which the n-th nested call for page 2 is made. */
  ghost function Nested(f: File, p: int, s: State, n: nat): State
    requires ValidFile(f) && Trap(f, p)
    decreases n
  {
    if n == 0 then s
    else
      var before := Nested(f, p, s, n - 1);
      AtSecondChild(f, p, before)
  }

  /** The call for page 2 that is made while page 2 is being parsed is accepted, with one more row delivered; */
  lemma AcceptedAgain(f: File, p: int, s: State)
    requires ValidFile(f) && Trap(f, p) && |s.status| == |f.pages| && Open(s)
    ensures var s' := AtSecondChild(f, p, s);
            && |s'.status| == |f.pages| && Open(s') && |s'.rows| == |s.rows| + 1
  {
    hide Decode, CellAt, CellEnds;
    var s1, c := Set(Set(s, 2, Checking), 3, Checking), CellAt(f, 3, p);
    TameForNone(f, p);
    OneCell(f, p, s1);
    assert Get(AfterCell(s1, c), 2) == Checked;
  }

  lemma OneCell(f: File, p: int, s: State)
    requires ValidFile(f) && Trap(f, p) && TameLeaf(f, {}, 3, [p])
    ensures ParseCells(f, {}, s, 3, [p]) == Outcome(OK, AfterCell(s, CellAt(f, 3, p)))
  {
    hide Decode, CellAt, CellEnds, AfterCell;
    assert [p][1..] == [] && [p][0] == p;
  }

  /** and so is every call nested in it: the recursion has no end. */
  lemma {:induction false} GuardFails(f: File, p: int, s: State, n: nat)
    requires ValidFile(f) && Trap(f, p) && |s.status| == |f.pages| && Open(s)
    ensures var s' := Nested(f, p, s, n);
            && |s'.status| == |f.pages| && Open(s') && |s'.rows| == |s.rows| + n
    decreases n
  {
    hide AtSecondChild, Trap, Open, Get;
    if n > 0 {
      GuardFails(f, p, s, n - 1);
      AcceptedAgain(f, p, Nested(f, p, s, n - 1));
    }
  }

  // ---------------------------------------------------------------------------------------------
  // A file with such a trap

  /** An interior page with the children 3 and 2. */
  function PageTwo(): (page: seq<Byte>)
    ensures |page| == 512
  {
    seq(512, i requires 0 <= i < 512 =>
      if i == 0 then 5 else if i == 4 || i == 12 then 1
      else if i == 11 then 2 else if i == 259 then 3 else 0)
  }

  /** A leaf with a cell at offset 100, whose payload of 478 bytes spills to page 2. */
  function PageThree(): (page: seq<Byte>)
    ensures |page| == 512
  {
    seq(512, i requires 0 <= i < 512 =>
      if i == 0 then 13 else if i == 4 then 1 else if i == 9 then 100
      else if i == 100 then 131 else if i == 101 then 94 else if i == 102 then 1
      else if i == 103 then 3 else if i == 104 then 135 else if i == 105 then 66
      else if i == 145 then 2 else 0)
  }

  function TrapFile(): (f: File)
    ensures ValidFile(f)
  {
    File([seq(512, _ => 0), PageTwo(), PageThree()], 512, 512)
  }

  lemma TrapExists()
    ensures Trap(TrapFile(), 100)
  {
    var f := TrapFile();
    TrapPages();
    TrapCell();
  }

  lemma TrapPages()
    ensures Decode(TrapFile(), 2) == Interior([3, 2]) && Decode(TrapFile(), 3) == Leaf([100])
  {
    TrapBytes();
    SmallBytes();
    hide Decode, PageTwo, PageThree, BigEndian;
    var f := TrapFile();
    var two, three := f.pages[1], f.pages[2];
    assert PointerWritten(two, 12, 256) && PointerWritten(three, 8, 100);
    assert PageWritten(f, 2, 5, [256]) && PageWritten(f, 3, 13, [100]);
    assert ChildWritten(two, 256, 3) && ChildWritten(two, 8, 2);
    InteriorDecodes(f, 2, [256], [3, 2]);
    LeafDecodes(f, 3, [100]);
    LegibleExactly([100]);
  }

  lemma TrapBytes()
    ensures PageTwo()[0] == 5 && PageTwo()[3..5] == [0, 1] && PageTwo()[12..14] == [1, 0]
    ensures PageTwo()[256..260] == [0, 0, 0, 3] && PageTwo()[8..12] == [0, 0, 0, 2]
    ensures PageThree()[0] == 13 && PageThree()[3..5] == [0, 1] && PageThree()[8..10] == [0, 100]
  {
  }

  lemma SmallBytes()
    ensures BigEndian(1, 2) == [0, 1] && BigEndian(256, 2) == [1, 0] && BigEndian(100, 2) == [0, 100]
    ensures BigEndian(3, 4) == [0, 0, 0, 3] && BigEndian(2, 4) == [0, 0, 0, 2]
  {
  }

  lemma TrapCell()
    ensures var f := TrapFile();
      CellEnds(f, 3, 100) && CellAt(f, 3, 100).rc == OK && CellAt(f, 3, 100).overflow == [2]
  {
    hide HeadAt, PayloadAt, ChainEnds, Record;
    TrapHead();
    TrapPayload();
    TrapRecord();
  }

  /** Numbers below 128, and below 16384, as varints. */
  lemma ShortVarints(v: nat)
    requires v < 16384
    ensures Varint(v) == (if v < 128 then [v] else [v / 128 + 128, v % 128]) && v < Pow(128, 8)
  {
    assert v < Pow(128, 8) by { assert Pow(128, 2) == 16384 && Pow(128, 8) >= 16384; }
    if v >= 128 {
      assert Digits128(v / 128) == 1;
      assert Flagged(v / 128, 1) == Flagged(0, 0) + [v / 128 + 128];
    }
  }

  lemma TrapStart()
    ensures PageThree()[100..103] == [131, 94, 1]
  {
  }

  lemma TrapHead()
    ensures HeadAt(PageThree(), 100) == Head(478, 1, 103)
  {
    hide HeadAt, Varint, PageThree, Pow;
    var page := PageThree();
    ShortVarints(478);
    ShortVarints(1);
    assert page[100..103] == [131, 94, 1] by { TrapStart(); }
    assert Varint(478) + Varint(1) + [] == [131, 94, 1];
    HeadRoundTrip(page, 100, 478, 1, []);
  }

  lemma TrapChain()
    ensures var f := TrapFile(); LoopEnds(f, 2) && Overflow(f, 2, 439) == Chain(PageTwo()[4..443], [2])
  {
    var f := TrapFile();
    hide ParseInt64;
    TrapNext();
    assert Link(f, 2, 1) == 83886080;
    assert Gather(f, 83886080, 0, 2) == Chain([], []);
    assert Piece(f, 2, 439) == PageTwo()[4..443];
    assert PageTwo()[4..443] + [] == PageTwo()[4..443];
  }

  lemma TrapNext()
    ensures NextPageno(TrapFile(), 2) == 83886080
  {
    var two := PageTwo();
    assert two[0..4] == [5, 0, 0, 0];
    Signed4(two[0..4]);
  }

  lemma TrapPayload()
    ensures PayloadAt(TrapFile(), 3, 103, 478) == Payload(PageThree()[103..142] + PageTwo()[4..443], [2])
    ensures ChainEnds(TrapFile(), 3, 103, 478)
  {
    hide ParseInt64, Overflow, LoopEnds, BigEndian;
    var f := TrapFile();
    var three := PageThree();
    assert three[142..146] == [0, 0, 0, 2];
    SmallBytes();
    ChildRead(three, 142, 2);
    TrapChain();
    assert Local(512, 478) == 39;
    PayloadSpilled(f, 3, 103, 478, 2, PageTwo()[4..443], [2]);
  }

  /** The payload is a record with one value, a blob of 475 bytes. */
  lemma TrapRecord()
    ensures Record(PageThree()[103..142] + PageTwo()[4..443]).Values?
  {
    hide Record, Varint;
    var body := PageThree()[106..142] + PageTwo()[4..443];
    var row := [Field(962, body)];
    ShortVarints(3);
    ShortVarints(962);
    assert row[1..] == [];
    assert Types(row) == [135, 66] && Contents(row) == body;
    assert PageThree()[103..142] == [3, 135, 66] + PageThree()[106..142];
    assert RecordOf(row, 3) == PageThree()[103..142] + PageTwo()[4..443];
    RecordRoundTrip(row, 3);
  }
}
