/**
  B-tree pages as section 1.6 of "SQLite Database File Format" lays them out, and what
  repair/sqliterk_btree.c makes of them: from the bytes of a tree to its rows.
 */
module RepairFormat {
  import opened Common
  import opened RepairBytes
  import opened RepairRecord
  import opened RepairCell
  import opened RepairPages
  import opened RepairTrees
  import opened RepairRuns

  // ---------------------------------------------------------------------------------------------
  // Pages

  /**
    A b-tree page of type t with these cell pointers: 2 is an interior index page, 5 an interior table page,
    10 an index leaf and 13 a table leaf.  The header of page 1 comes after the 100 bytes of the file header,
    and that of an interior page is four bytes longer, for its right-most child.
   */
  ghost predicate PageWritten(f: File, no: nat, t: nat, pointers: seq<nat>)
    requires ValidFile(f) && ValidPageno(f, no)
  {
    var page, h, first := f.pages[no - 1], if no == 1 then 100 else 0, if t == 2 || t == 5 then 12 else 8;
    && h + first + 2 * |pointers| <= f.pageSize
    && page[h] == t && page[h + 3..h + 5] == BigEndian(|pointers|, 2)
    && forall i :: 0 <= i < |pointers| ==>
         pointers[i] < f.pageSize && PointerWritten(page, h + first + i * 2, pointers[i])
  }

  ghost predicate PointerWritten(page: seq<Byte>, at: nat, pointer: nat) {
    pointer < 65536 && at + 2 <= |page| && page[at..at + 2] == BigEndian(pointer, 2)
  }

  /** An interior page of type t: every cell starts with a child, and the right-most child is in the header. */
  ghost predicate InteriorWritten(f: File, no: nat, t: nat, pointers: seq<nat>, children: seq<int>)
    requires ValidFile(f) && ValidPageno(f, no)
  {
    && PageWritten(f, no, t, pointers) && 0 < |pointers| && |children| == |pointers| + 1
    && (forall i :: 0 <= i < |pointers| ==> ChildWritten(f.pages[no - 1], pointers[i], children[i]))
    && ChildWritten(f.pages[no - 1], (if no == 1 then 100 else 0) + 8, children[|pointers|])
  }

  /** The four bytes of a page number; a damaged one may be anything. */
  ghost predicate ChildWritten(page: seq<Byte>, at: nat, child: int) {
    && -2147483648 <= child < 2147483648 && at + 4 <= |page|
    && page[at..at + 4] == BigEndian(if child < 0 then child + 4294967296 else child, 4)
  }

  /** Two bytes are read as a signed number, */
  function AsRead(pointer: nat): int {
    if pointer < 32768 then pointer else pointer - 65536
  }

  /** so that these cell pointers come out right. */
  predicate Legible(pointers: seq<nat>) {
    forall i :: 0 <= i < |pointers| ==> pointers[i] < 32768
  }

  lemma SmallPagesAreLegible(f: File, no: nat, t: nat, pointers: seq<nat>)
    requires ValidFile(f) && ValidPageno(f, no) && PageWritten(f, no, t, pointers) && f.pageSize <= 32768
    ensures Legible(pointers)
  {
  }

  /** A written cell pointer is read back if and only if it is below 32768. */
  lemma PointerRead(page: seq<Byte>, at: nat, pointer: nat)
    requires PointerWritten(page, at, pointer)
    ensures ParseInt64(page, at, 2) == Int(AsRead(pointer))
    ensures ParseInt64(page, at, 2) == Int(pointer) <==> pointer < 32768
  {
    hide ParseInt64, Signed, BigEndian;
    assert Pow(256, 1) == 256 && Pow(256, 2) == 65536;
    assert EncodeInt(AsRead(pointer), 2) == BigEndian(pointer, 2);
    SignedOfEncodeInt(AsRead(pointer), 2);
  }

  lemma ChildRead(page: seq<Byte>, at: nat, child: int)
    requires ChildWritten(page, at, child)
    ensures ParseInt64(page, at, 4) == Int(child)
  {
    hide ParseInt64, Signed, BigEndian;
    Powers();
    assert Pow(256, 4) == 4294967296;
    assert EncodeInt(child, 4) == page[at..at + 4];
    SignedOfEncodeInt(child, 4);
  }

  lemma TypeRead(page: seq<Byte>, at: nat)
    requires at < |page| && page[at] < 128
    ensures ParseInt64(page, at, 1) == Int(page[at])
  {
    hide Signed;
    Signed1(page[at..at + 1]);
  }

  lemma {:induction false} ReadsAll(page: seq<Byte>, at: seq<int>, k: nat, list: seq<int>)
    requires (k == 2 || k == 4) && |list| == |at|
    requires forall i :: 0 <= i < |at| ==> ParseInt64(page, at[i], k) == Int(list[i])
    ensures ReadAll(page, at, k) == Numbers(list)
  {
    hide ParseInt64;
    if at != [] {
      ReadsAll(page, at[..|at| - 1], k, list[..|at| - 1]);
      assert list == list[..|at| - 1] + [list[|at| - 1]];
    }
  }

  /** One number outside of the page is enough. */
  lemma ReadsOutside(page: seq<Byte>, at: seq<int>, k: nat, i: nat)
    requires (k == 2 || k == 4) && i < |at| && ParseInt64(page, at[i], k) == IntOutside
    ensures ReadAll(page, at, k) == Outside
  {
    hide ParseInt64;
    assert at[..i + 1][..i] == at[..i];
    OutsideStays(page, at, k, i + 1);
  }

  function AllAsRead(pointers: seq<nat>): (s: seq<int>)
    ensures |s| == |pointers| && forall i :: 0 <= i < |s| ==> s[i] == AsRead(pointers[i])
  {
    seq(|pointers|, i requires 0 <= i < |pointers| => AsRead(pointers[i]))
  }

  lemma HeaderRead(f: File, no: nat, t: nat, pointers: seq<nat>)
    requires ValidFile(f) && ValidPageno(f, no) && PageWritten(f, no, t, pointers) && t < 128
    ensures PageType(f, no) == t && CellsCount(f, no) == |pointers|
  {
    hide ParseInt64, BigEndian;
    TypeRead(f.pages[no - 1], HeaderOffset(no));
    PointerRead(f.pages[no - 1], 3 + HeaderOffset(no), |pointers|);
  }

  /** The header and the cell pointers of a written page are read, unless it is an interior index page. */
  lemma ReadsPage(f: File, no: nat, t: nat, pointers: seq<nat>)
    requires ValidFile(f) && ValidPageno(f, no) && PageWritten(f, no, t, pointers) && t < 128 && t != 2
    ensures PageType(f, no) == t && CellsCount(f, no) == |pointers|
    ensures var at := PointerOffsets(no, if t == 5 then 12 else 8, |pointers|);
      ReadAll(f.pages[no - 1], at, 2) == Numbers(AllAsRead(pointers))
  {
    hide ParseInt64, BigEndian, PageType, CellsCount;
    var page, h, first := f.pages[no - 1], HeaderOffset(no), if t == 5 then 12 else 8;
    HeaderRead(f, no, t, pointers);
    var at := PointerOffsets(no, first, |pointers|);
    forall i | 0 <= i < |at| ensures ParseInt64(page, at[i], 2) == Int(AsRead(pointers[i])) {
      assert PointerWritten(page, h + first + i * 2, pointers[i]);
      PointerRead(page, h + first + i * 2, pointers[i]);
    }
    ReadsAll(page, at, 2, AllAsRead(pointers));
  }

  /**
    A written table leaf is found with all its cells if and only if it has one and all its cell pointers are
    below 32768; a leaf without a cell, as every empty table has, is taken for damage.
   */
  lemma LeafDecodes(f: File, no: nat, pointers: seq<nat>)
    requires ValidFile(f) && ValidPageno(f, no) && PageWritten(f, no, 13, pointers)
    ensures Decode(f, no) == if pointers == [] then Bad(DAMAGED) else Leaf(AllAsRead(pointers))
    ensures Decode(f, no) == Leaf(pointers) <==> pointers != [] && Legible(pointers)
  {
    hide ReadAll, PointerOffsets, PageType, CellsCount, PointerWritten;
    ReadsPage(f, no, 13, pointers);
    LegibleExactly(pointers);
  }

  lemma LegibleExactly(pointers: seq<nat>)
    ensures AllAsRead(pointers) == pointers <==> Legible(pointers)
  {
    if AllAsRead(pointers) == pointers {
      forall i | 0 <= i < |pointers| ensures pointers[i] < 32768 {
        assert AsRead(pointers[i]) == pointers[i];
      }
    }
  }

  /**
    A written interior page, if it is not page 1, is found with all its children if and only if all its cell
    pointers are below 32768; another ends the whole walk.
   */
  lemma InteriorDecodes(f: File, no: nat, pointers: seq<nat>, children: seq<int>)
    requires ValidFile(f) && ValidPageno(f, no) && InteriorWritten(f, no, 5, pointers, children) && no != 1
    ensures Decode(f, no) == if Legible(pointers) then Interior(children) else Bad(FAULT)
  {
    hide Decode, PageWritten, BigEndian, ParseInt64;
    assert ChildWritten(f.pages[no - 1], 8, children[|pointers|]);
    ChildRead(f.pages[no - 1], 8, children[|pointers|]);
    DecodesWithLast(f, no, pointers, children, children[|pointers|]);
    assert children[..|pointers|] + [children[|pointers|]] == children;
  }

  /** What is found on a written interior page, given what offset 8 holds. */
  lemma DecodesWithLast(f: File, no: nat, pointers: seq<nat>, children: seq<int>, last: int)
    requires ValidFile(f) && ValidPageno(f, no) && InteriorWritten(f, no, 5, pointers, children)
    requires ParseInt64(f.pages[no - 1], 8, 4) == Int(last)
    ensures Decode(f, no) == if Legible(pointers) then Interior(children[..|pointers|] + [last]) else Bad(FAULT)
  {
    hide PageType, CellsCount, PointerWritten, PointerOffsets, BigEndian, ReadAll, ParseInt64;
    var page, at, list := f.pages[no - 1], AllAsRead(pointers) + [8], children[..|pointers|] + [last];
    ReadsPage(f, no, 5, pointers);
    if Legible(pointers) {
      forall i | 0 <= i < |at| ensures ParseInt64(page, at[i], 4) == Int(list[i]) {
        if i < |pointers| {
          assert ChildWritten(page, pointers[i], children[i]);
          ChildRead(page, pointers[i], children[i]);
        }
      }
      ReadsAll(page, at, 4, list);
    } else {
      var i :| 0 <= i < |pointers| && pointers[i] >= 32768;
      assert PointerWritten(page, HeaderOffset(no) + 12 + i * 2, pointers[i]);
      BeforeThePage(page, pointers[i]);
      ReadsOutside(page, at, 4, i);
    }
  }

  lemma BeforeThePage(page: seq<Byte>, pointer: nat)
    requires 32768 <= pointer < 65536
    ensures ParseInt64(page, AsRead(pointer), 4) == IntOutside
  {
  }

  /** "orma" as a page number */
  const MAGIC: nat := 1869770081

  ghost predicate HasMagic(f: File)
    requires ValidFile(f) && ValidPageno(f, 1)
  {
    f.pages[0][8..12] == ['o' as int, 'r' as int, 'm' as int, 'a' as int]
  }

  /** On page 1, offset 8 holds "orma" of "SQLite format 3": the right-most child of a root there is not visited. */
  lemma PageOneLosesLast(f: File, pointers: seq<nat>, children: seq<int>)
    requires ValidFile(f) && ValidPageno(f, 1) && InteriorWritten(f, 1, 5, pointers, children) && HasMagic(f)
    requires Legible(pointers)
    ensures Decode(f, 1) == Interior(children[..|pointers|] + [MAGIC])
  {
    Signed4(f.pages[0][8..12]);
    assert ParseInt64(f.pages[0], 8, 4) == Int(MAGIC);
    DecodesWithLast(f, 1, pointers, children, MAGIC);
  }

  // ---------------------------------------------------------------------------------------------
  // Index pages, and pages that are damaged

  /** A written index leaf is skipped, unless it has no cell, as the index of an empty table. */
  lemma IndexLeafDecodes(f: File, no: nat, pointers: seq<nat>)
    requires ValidFile(f) && ValidPageno(f, no) && PageWritten(f, no, 10, pointers)
    ensures Decode(f, no) == if pointers == [] then Bad(DAMAGED) else Skipped
  {
    hide ReadAll, PointerOffsets, PageType, CellsCount, PointerWritten;
    ReadsPage(f, no, 10, pointers);
  }

  /** The two halves of the page number of a right-most child. */
  function Halves(child: int): (h: seq<nat>)
    requires -2147483648 <= child < 2147483648
    ensures |h| == 2 && h[0] < 65536 && h[1] < 65536
  {
    var raw := if child < 0 then child + 4294967296 else child;
    [raw / 65536, raw % 65536]
  }

  /**
    What is found on an interior index page, whose header is taken to be of eight bytes and to have no right-most
    child: the halves of that child's page number are taken for the first two cell pointers, and the last two
    cells are not read.
   */
  ghost predicate IndexFinds(f: File, no: nat, pointers: seq<nat>, children: seq<int>, found: seq<int>)
    requires ValidFile(f) && ValidPageno(f, no) && InteriorWritten(f, no, 2, pointers, children)
  {
    var page, n, halves := f.pages[no - 1], |pointers|, Halves(children[|pointers|]);
    && |found| == n && (forall i :: 0 <= i < n && i < 2 ==> ParseInt64(page, AsRead(halves[i]), 4) == Int(found[i]))
    && forall i :: 2 <= i < n ==> found[i] == children[i - 2]
  }

  /** A number stands at each half, as far as it is taken for a cell pointer. */
  predicate HalvesInside(f: File, no: nat, n: nat, child: int)
    requires ValidFile(f) && ValidPageno(f, no) && -2147483648 <= child < 2147483648
  {
    forall i :: 0 <= i < n && i < 2 ==> 0 <= AsRead(Halves(child)[i]) <= |f.pages[no - 1]| - 4
  }

  /** The halves come from the bytes of the right-most child. */
  lemma HalvesRead(page: seq<Byte>, at: nat, child: int)
    requires ChildWritten(page, at, child)
    ensures PointerWritten(page, at, Halves(child)[0]) && PointerWritten(page, at + 2, Halves(child)[1])
  {
    var raw := if child < 0 then child + 4294967296 else child;
    FourIsTwice(raw);
    hide BigEndian;
    var b := page[at..at + 4];
    assert b == BigEndian(raw, 4);
    assert page[at..at + 2] == b[..2] && page[at + 2..at + 4] == b[2..];
  }

  lemma FourIsTwice(v: nat)
    requires v < 4294967296
    ensures BigEndian(v, 4)[..2] == BigEndian(v / 65536, 2) && BigEndian(v, 4)[2..] == BigEndian(v % 65536, 2)
  {
    LowHalf(v);
    TwoBytes(v % 65536);
    hide BigEndian;
    BytesSplit(v, 4);
    BytesSplit(v / 256, 3);
  }

  lemma BytesSplit(v: nat, k: nat)
    requires k > 0
    ensures BigEndian(v, k) == BigEndian(v / 256, k - 1) + [v % 256]
  {
  }

  lemma LowHalf(v: nat)
    ensures v / 256 / 256 == v / 65536 && v % 65536 % 256 == v % 256 && v % 65536 / 256 == v / 256 % 256
  {
    var q, w := v / 65536, v % 65536;
    assert v == q * 65536 + w;
    assert v / 256 == q * 256 + w / 256;
  }

  lemma TwoBytes(v: nat)
    requires v < 65536
    ensures BigEndian(v, 2) == [v / 256, v % 256]
  {
  }

  lemma FourBytes(v: nat)
    requires v < 4294967296
    ensures BigEndian(v, 4) == [v / 16777216, v / 65536 % 256, v / 256 % 256, v % 256]
  {
    assert v / 256 / 256 == v / 65536 && v / 65536 / 256 == v / 16777216;
    assert BigEndian(v / 65536, 2) == [v / 16777216, v / 65536 % 256] by { TwoBytes(v / 65536); }
    assert BigEndian(v / 256, 3) == BigEndian(v / 65536, 2) + [v / 256 % 256];
  }

  /**
    An interior index page written by the format is found with the children of IndexFinds, or ends the whole walk;
    it is never found with the children that it has.
   */
  lemma IndexInteriorDecodes(f: File, no: nat, pointers: seq<nat>, children: seq<int>)
    requires ValidFile(f) && ValidPageno(f, no) && InteriorWritten(f, no, 2, pointers, children) && Legible(pointers)
    ensures Decode(f, no).Interior? ==> IndexFinds(f, no, pointers, children, Decode(f, no).children)
    ensures Decode(f, no).Interior? <==> HalvesInside(f, no, |pointers|, children[|pointers|])
    ensures !Decode(f, no).Interior? ==> Decode(f, no) == Bad(FAULT)
    ensures Decode(f, no) != Interior(children)
  {
    hide PageType, CellsCount, PointerWritten, PointerOffsets, BigEndian, ReadAll, ParseInt64, AsRead, Halves;
    var page, n, halves := f.pages[no - 1], |pointers|, Halves(children[|pointers|]);
    HeaderRead(f, no, 2, pointers);
    var at := IndexPointers(f, no, pointers, children);
    assert at + [] == at;
    if HalvesInside(f, no, n, children[n]) {
      var found := IndexNumbers(f, no, pointers, children);
      ReadsAll(page, at, 4, found);
    } else {
      var i :| 0 <= i < n && i < 2 && !(0 <= AsRead(halves[i]) <= |page| - 4);
      OutsideThePage(page, AsRead(halves[i]));
      ReadsOutside(page, at, 4, i);
    }
  }

  lemma OutsideThePage(page: seq<Byte>, at: int)
    ensures ParseInt64(page, at, 4) == IntOutside <==> !(0 <= at <= |page| - 4)
    ensures ParseInt64(page, at, 4).Int? <==> 0 <= at <= |page| - 4
  {
  }

  /** What is taken for the cell pointers. */
  lemma IndexPointers(f: File, no: nat, pointers: seq<nat>, children: seq<int>) returns (at: seq<int>)
    requires ValidFile(f) && ValidPageno(f, no) && InteriorWritten(f, no, 2, pointers, children) && Legible(pointers)
    ensures |at| == |pointers| && (forall i :: 2 <= i < |at| ==> at[i] == pointers[i - 2])
    ensures forall i :: 0 <= i < |at| && i < 2 ==> at[i] == AsRead(Halves(children[|pointers|])[i])
    ensures ReadAll(f.pages[no - 1], PointerOffsets(no, 8, |pointers|), 2) == Numbers(at)
  {
    hide ReadAll, ParseInt64, BigEndian, Halves;
    var page, h, n, halves := f.pages[no - 1], HeaderOffset(no), |pointers|, Halves(children[|pointers|]);
    at := seq(n, i requires 0 <= i < n => if i < 2 then AsRead(halves[i]) else pointers[i - 2]);
    HalvesRead(page, h + 8, children[n]);
    var offsets := PointerOffsets(no, 8, n);
    forall i | 0 <= i < n ensures ParseInt64(page, offsets[i], 2) == Int(at[i]) {
      if i < 2 {
        PointerRead(page, h + 8 + i * 2, halves[i]);
      } else {
        assert PointerWritten(page, h + 12 + (i - 2) * 2, pointers[i - 2]);
        PointerRead(page, h + 12 + (i - 2) * 2, pointers[i - 2]);
      }
    }
    ReadsAll(page, offsets, 2, at);
  }

  /** And what is read there. */
  lemma IndexNumbers(f: File, no: nat, pointers: seq<nat>, children: seq<int>) returns (found: seq<int>)
    requires ValidFile(f) && ValidPageno(f, no) && InteriorWritten(f, no, 2, pointers, children)
    requires HalvesInside(f, no, |pointers|, children[|pointers|])
    ensures IndexFinds(f, no, pointers, children, found)
    ensures forall i :: 2 <= i < |found| ==> ParseInt64(f.pages[no - 1], pointers[i - 2], 4) == Int(found[i])
  {
    hide ParseInt64, BigEndian, Halves, AsRead;
    var page, n, halves := f.pages[no - 1], |pointers|, Halves(children[|pointers|]);
    forall i | 0 <= i < n && i < 2 ensures ParseInt64(page, AsRead(halves[i]), 4).Int? {
      OutsideThePage(page, AsRead(halves[i]));
    }
    found := seq(n, i requires 0 <= i < n =>
      if i < 2 then ParseInt64(page, AsRead(halves[i]), 4).value else children[i - 2]);
    forall i | 2 <= i < n ensures ParseInt64(page, pointers[i - 2], 4) == Int(found[i]) {
      assert ChildWritten(page, pointers[i - 2], children[i - 2]);
      ChildRead(page, pointers[i - 2], children[i - 2]);
    }
  }

  /** A page with another type byte, without a cell, or with more cells than can be: h is where its header is. */
  predicate NoTreePage(page: seq<int>, h: nat, size: nat)
    requires h + 4 < |page|
  {
    var count := page[h + 3] * 256 + page[h + 4];
    || page[h] !in {2, 5, 10, 13} || count == 0 || count >= 32768
    || count * 2 + (if page[h] == 5 then 12 else 8) > size
  }

  /** These pages, and no others, are taken for damage before their cells are looked at. */
  lemma DamagedDecodes(f: File, no: nat)
    requires ValidFile(f) && ValidPageno(f, no)
    ensures Decode(f, no) == Bad(DAMAGED) <==> NoTreePage(f.pages[no - 1], if no == 1 then 100 else 0, f.pageSize)
  {
    hide ReadAll;
    var page, h := f.pages[no - 1], HeaderOffset(no);
    assert PageType(f, no) == Int8(page[h]) by { assert page[h..h + 1][0] == page[h]; }
    var p: seq<Byte> := page[h + 3..h + 5];
    assert CellsCount(f, no) == Int8(page[h + 3]) * 256 + page[h + 4] by {
      assert p[0] == page[h + 3] && p[1] == page[h + 4];
    }
  }

  lemma NoTreePageRun(f: File, pages: set<nat>, skip: bool, s: State, no: int)
    requires ValidFile(f) && |s.status| == |f.pages| && Tame(f, pages) && Within(f, pages, no)
    requires ValidPageno(f, no) && Get(s, no) != Checking
    requires NoTreePage(f.pages[no - 1], if no == 1 then 100 else 0, f.pageSize)
    ensures var o := Parse(f, pages, skip, s, no);
            && o.rc == DAMAGED && o.s.rows == s.rows && Get(o.s, no) == Damaged
            && forall k: int :: k != no ==> Get(o.s, k) == Get(s, k)
  {
    hide Parse;
    DamagedDecodes(f, no);
    DamagedRun(f, pages, skip, s, no);
  }

  // ---------------------------------------------------------------------------------------------
  // Rows

  /** A cell with this row is stored there. */
  ghost predicate RowWritten(f: File, no: nat, at: nat, row: Row, chain: seq<nat>)
    requires ValidFile(f) && ValidPageno(f, no)
  {
    row.rowid < Pow(128, 8) && exists fields, h :: CellHolds(f, no, at, row, fields, h, chain)
  }

  ghost predicate CellHolds(f: File, no: nat, at: nat, row: Row, fields: seq<Field>, h: nat, chain: seq<nat>)
    requires ValidFile(f) && ValidPageno(f, no)
  {
    && ValidRow(fields) && HeaderSize(fields, h) && Meanings(fields) == row.values
    && |RecordOf(fields, h)| < 2147483648 && CellWritten(f, no, at, row.rowid, RecordOf(fields, h), chain)
  }

  lemma RowWrittenIsRead(f: File, no: nat, at: nat, row: Row, chain: seq<nat>)
    requires ValidFile(f) && ValidPageno(f, no) && RowWritten(f, no, at, row, chain)
    ensures ReadAs(f, no, at, row, chain)
  {
    hide CellAt, CellEnds, CellWritten, RecordOf, Pow;
    var fields, h :| CellHolds(f, no, at, row, fields, h, chain);
    RecordNonempty(fields, h);
    CellRoundTrip(f, no, at, row.rowid, fields, h, chain);
    WrittenCellEnds(f, no, at, row.rowid, RecordOf(fields, h), chain);
  }

  // ---------------------------------------------------------------------------------------------
  // Trees

  /** A leaf page with a cell for each row. */
  ghost predicate LeafWritten(f: File, no: nat, rows: seq<Row>, chains: seq<seq<nat>>, pointers: seq<nat>)
    requires ValidFile(f) && ValidPageno(f, no)
  {
    && PageWritten(f, no, 13, pointers) && Legible(pointers) && |rows| == |chains| == |pointers|
    && forall i :: 0 <= i < |pointers| ==> RowWritten(f, no, pointers[i], rows[i], chains[i])
  }

  /** An interior table page with these children, or an interior index page on which they are found. */
  ghost predicate ChildrenFound(f: File, no: nat, pointers: seq<nat>, children: seq<int>, found: seq<int>)
    requires ValidFile(f) && ValidPageno(f, no)
  {
    || (InteriorWritten(f, no, 5, pointers, children) && found == children)
    || (no != 1 && InteriorWritten(f, no, 2, pointers, children) && IndexFinds(f, no, pointers, children, found))
  }

  /**
    The pages of the tree are as the file format lays them out, but for lost children, with rowids below 2^56
    and cell pointers below 32768; the children of an interior index page are those found.  Page 1 is below no
    other page.
   */
  ghost predicate TreeWritten(f: File, above: set<nat>, t: Tree)
    requires ValidFile(f)
    decreases t
  {
    match t
    case LeafPage(no, rows, chains) =>
      && ValidPageno(f, no)
      && ((exists pointers :: LeafWritten(f, no, rows, chains, pointers))
          || (rows == [] && chains == [] && PageWritten(f, no, 10, [])))
    case IndexLeaf(no) =>
      ValidPageno(f, no) && exists pointers :: pointers != [] && PageWritten(f, no, 10, pointers)
    case InteriorPage(no, kids) =>
      && ValidPageno(f, no)
      && (exists pointers, children ::
            Legible(pointers) && ChildrenFound(f, no, pointers, children, Roots(kids)))
      && forall i :: 0 <= i < |kids| ==> !RootOnPageOne(kids[i]) && TreeWritten(f, above + {no}, kids[i])
    case LostPage(at, zone) =>
      Contained(f, above, zone) && StaysIn(f, above, zone, at)
  }

  predicate RootOnPageOne(t: Tree) {
    t.InteriorPage? && t.no == 1
  }

  lemma ChildrenAreFound(f: File, no: nat, found: seq<int>)
    requires ValidFile(f) && ValidPageno(f, no) && no != 1
    requires exists pointers, children :: Legible(pointers) && ChildrenFound(f, no, pointers, children, found)
    ensures Decode(f, no) == Interior(found)
  {
    hide Decode;
    var pointers, children :| Legible(pointers) && ChildrenFound(f, no, pointers, children, found);
    if InteriorWritten(f, no, 5, pointers, children) && found == children {
      InteriorDecodes(f, no, pointers, children);
    } else {
      IndexInteriorDecodes(f, no, pointers, children);
      FoundOnce(f, no, pointers, children, found);
    }
  }

  /** Only one list of children is found. */
  lemma FoundOnce(f: File, no: nat, pointers: seq<nat>, children: seq<int>, found: seq<int>)
    requires ValidFile(f) && ValidPageno(f, no) && InteriorWritten(f, no, 2, pointers, children)
    requires IndexFinds(f, no, pointers, children, found)
    ensures HalvesInside(f, no, |pointers|, children[|pointers|])
    ensures forall other :: IndexFinds(f, no, pointers, children, other) ==> other == found
  {
    hide ParseInt64, Halves, AsRead;
    var page, n, halves := f.pages[no - 1], |pointers|, Halves(children[|pointers|]);
    forall i | 0 <= i < n && i < 2 ensures 0 <= AsRead(halves[i]) <= |page| - 4 {
      OutsideThePage(page, AsRead(halves[i]));
    }
    forall other | IndexFinds(f, no, pointers, children, other) ensures other == found {
      forall i | 0 <= i < n ensures other[i] == found[i] {
        if i < 2 { assert ParseInt64(page, AsRead(halves[i]), 4) == Int(other[i]) == Int(found[i]); }
      }
    }
  }

  /** A written tree is stored, unless it has an interior root on page 1. */
  lemma {:induction false} WrittenIsStored(f: File, above: set<nat>, t: Tree)
    requires ValidFile(f) && TreeWritten(f, above, t) && !RootOnPageOne(t)
    ensures Stored(f, above, t)
    decreases t
  {
    hide RowWritten, ReadAs, PageWritten, InteriorWritten, Decode, Contained;
    match t {
      case LeafPage(no, rows, chains) =>
        if pointers :| LeafWritten(f, no, rows, chains, pointers) {
          LeafDecodes(f, no, pointers);
          forall i | 0 <= i < |pointers| ensures ReadAs(f, no, pointers[i], rows[i], chains[i]) {
            RowWrittenIsRead(f, no, pointers[i], rows[i], chains[i]);
          }
        } else {
          IndexLeafDecodes(f, no, []);
        }
      case IndexLeaf(no) =>
        var pointers :| pointers != [] && PageWritten(f, no, 10, pointers);
        IndexLeafDecodes(f, no, pointers);
      case InteriorPage(no, kids) =>
        ChildrenAreFound(f, no, Roots(kids));
        forall i | 0 <= i < |kids| ensures Stored(f, above + {no}, kids[i]) {
          WrittenIsStored(f, above + {no}, kids[i]);
        }
      case LostPage(at, zone) =>
    }
  }

  /**
    What the walk finds of a written tree: all of it, but for the last child of an interior root on page 1, in
    place of which it comes to a page number that the file does not have.
   */
  function Found(t: Tree): Tree {
    if RootOnPageOne(t) && t.kids != [] then InteriorPage(1, t.kids[..|t.kids| - 1] + [LostPage(MAGIC, {})]) else t
  }

  /** "orma" is not the number of a page. */
  ghost predicate PageOne(f: File)
    requires ValidFile(f)
  {
    |f.pages| < MAGIC && (ValidPageno(f, 1) ==> HasMagic(f))
  }

  lemma FoundIsStored(f: File, t: Tree)
    requires ValidFile(f) && TreeWritten(f, {}, t) && PageOne(f)
    ensures Stored(f, {}, Found(t))
  {
    hide Decode, InteriorWritten;
    if RootOnPageOne(t) {
      var pointers, children :| Legible(pointers) && ChildrenFound(f, 1, pointers, children, Roots(t.kids));
      ChildrenCount(f, 1, pointers, Roots(t.kids));
      PageOneLosesLast(f, pointers, Roots(t.kids));
      var kids := Found(t).kids;
      assert Roots(t.kids)[..|pointers|] + [MAGIC] == Roots(kids);
      forall i | 0 <= i < |kids| ensures Stored(f, {} + {1}, kids[i]) {
        if i < |t.kids| - 1 { WrittenIsStored(f, {} + {1}, t.kids[i]); }
      }
    } else {
      WrittenIsStored(f, {}, t);
    }
  }

  lemma ChildrenCount(f: File, no: nat, pointers: seq<nat>, children: seq<int>)
    requires ValidFile(f) && ValidPageno(f, no) && InteriorWritten(f, no, 5, pointers, children)
    ensures |children| == |pointers| + 1
  {
  }

  /** The rows found: all of them, but for those below the last child of an interior root on page 1. */
  lemma FoundRows(t: Tree)
    ensures TreeRows(Found(t)) ==
      if RootOnPageOne(t) && t.kids != [] then RowsOf(t.kids[..|t.kids| - 1]) else TreeRows(t)
  {
    if RootOnPageOne(t) && t.kids != [] { RowsOfBoth(t.kids[..|t.kids| - 1], [LostPage(MAGIC, {})]); }
  }

  lemma {:induction false} RowsOfBoth(a: seq<Tree>, b: seq<Tree>)
    ensures RowsOf(a + b) == RowsOf(a) + RowsOf(b)
  {
    hide TreeRows;
    if a == [] {
      assert a + b == b;
    } else {
      RowsOfBoth(a[1..], b);
      assert (a + b)[0] == a[0] && (a + b)[1..] == a[1..] + b;
      assert RowsOf(a + b) == TreeRows(a[0]) + (RowsOf(a[1..]) + RowsOf(b));
    }
  }

  /**
    From bytes to rows: of a tree written by the format the walk delivers every row that is found, once and in
    order, and marks every page, whatever the other pages of the file hold and whatever is at lost children; of
    a system table (skip) and of an index of which nothing is lost it delivers no row.
   */
  lemma WrittenRun(f: File, skip: bool, s: State, t: Tree) returns (out: seq<Row>)
    requires ValidFile(f) && |s.status| == |f.pages| && TreeWritten(f, {}, t) && PageOne(f)
    requires Apart(Found(t)) && NoneChecking(s, TreePages(Found(t)))
    ensures Tame(f, Reach(Found(t))) && Within(f, Reach(Found(t)), RootOf(t))
    ensures skip ==> out == []
    ensures !skip ==> Yields(Found(t), out) && InOrderOf(TreeRows(Found(t)), out)
    ensures !skip && Whole(Found(t)) ==> out == TreeRows(Found(t))
    ensures var v, o := Found(t), Parse(f, Reach(Found(t)), skip, s, RootOf(t));
      Ran(TreePages(v), TreeSpill(v) + TreeZones(v), TreeBare(v), s, o.s, out) && TreeResult(v, o.rc)
  {
    hide Stored, TreeWritten, Decode, Parse, Tame;
    var v := Found(t);
    FoundIsStored(f, t);
    StoredIsTame(f, v);
    out := TreeRun(f, Reach(v), skip, s, {}, v);
    if !skip {
      YieldsKeep(v, out);
      if Whole(v) { WholeYields(v, out); }
    }
  }
}
