/**
  Cells of table leaf pages with their overflow chains, as sqliterkBtreeParseCell and
  sqliterkBtreeParsePayload of repair/sqliterk_btree.c read them, against section 1.6 of
  "SQLite Database File Format".
 */
module RepairCell {
  import Arith
  import opened Common
  import opened RepairBytes
  import opened RepairRecord

  /** A database file that can be read: page k is pages[k - 1]. */
  datatype File = File(pages: seq<seq<Byte>>, pageSize: nat, usable: nat)

  /** Pages are of one size, of which up to 255 bytes are reserved. */
  ghost predicate ValidFile(f: File) {
    && 512 <= f.pageSize <= 65536 && f.pageSize <= f.usable + 255 && f.usable <= f.pageSize
    && |f.pages| < 2147483648
    && forall k :: 0 <= k < |f.pages| ==> |f.pages[k]| == f.pageSize
  }

  /** sqliterkPagerIsPagenoValid */
  predicate ValidPageno(f: File, no: int) {
    1 <= no <= |f.pages|
  }

  // ---------------------------------------------------------------------------------------------
  // How much of a payload is on the leaf page

  function MinLocal(usable: nat): nat
    requires usable >= 257
  {
    (usable - 12) * 32 / 255 - 23
  }

  function MaxLeaf(usable: nat): nat
    requires usable >= 257
  {
    usable - 35
  }

  /** The number of bytes of a payload of this size that are stored locally. */
  function Local(usable: nat, size: nat): (local: nat)
    requires usable >= 257
  {
    if size <= MaxLeaf(usable) then size
    else
      var surplus := MinLocal(usable) + (size - MinLocal(usable)) % (usable - 4);
      if surplus <= MaxLeaf(usable) then surplus else MinLocal(usable)
  }

  /** With this much of it on the page, the rest of the payload fills overflow pages of usable - 4 bytes each. */
  predicate FillsPages(usable: nat, size: nat, local: int)
    requires usable > 4
  {
    (size - local) % (usable - 4) == 0
  }

  /**
    A payload of more than usable - 35 bytes spills: it leaves at least M bytes on the page, where M is
    (usable - 12) * 32 / 255 - 23, and no more than usable - 35; the fewest with which the overflow pages are all
    full, if there are such, and M if not.
   */
  lemma LocalBounds(usable: nat, size: nat)
    requires usable >= 257
    ensures var local, least, most := Local(usable, size), (usable - 12) * 32 / 255 - 23, usable - 35;
            && local <= size && local <= most && (local < size <==> size > most)
            && (size > most ==> least <= local && (FillsPages(usable, size, local) || local == least))
            && (size > most && !FillsPages(usable, size, local) ==>
                  forall k :: least <= k <= most ==> !FillsPages(usable, size, k))
  {
    MinBelowMax(usable);
    if size > MaxLeaf(usable) && Local(usable, size) == MinLocal(usable) {
      forall k | MinLocal(usable) <= k <= MaxLeaf(usable) && FillsPages(usable, size, k)
        ensures FillsPages(usable, size, MinLocal(usable))
      {
        FirstFull(size - MinLocal(usable), usable - 4, k - MinLocal(usable));
      }
    }
    if size > MaxLeaf(usable) {
      hide MinLocal;
      RemainderFits(size - MinLocal(usable), usable - 4);
    }
  }

  lemma MinBelowMax(usable: nat)
    requires usable >= 257
    ensures MinLocal(usable) <= MaxLeaf(usable) < usable - 4
  {
  }

  /** If taking away k < d makes x a multiple of d, then k is the remainder. */
  lemma FirstFull(x: nat, d: nat, k: nat)
    requires k < d && k <= x && (x - k) % d == 0
    ensures x % d == k
  {
    var q := (x - k) / d;
    assert x - k == q * d;
    Arith.DivMod(x, d, q);
  }

  lemma RemainderFits(x: nat, d: nat)
    requires d > 0
    ensures x % d <= x && (x - x % d) % d == 0
  {
    var q := x / d;
    assert x == q * d + x % d;
    Arith.DivMod(q * d, d, q);
  }

  // ---------------------------------------------------------------------------------------------
  // Overflow chains

  /** The number of the next overflow page, at the start of a page. */
  function NextPageno(f: File, no: nat): int
    requires ValidFile(f) && ValidPageno(f, no)
  {
    ParseInt64(f.pages[no - 1], 0, 4).value
  }

  /** What one overflow page adds to a payload of which `left` bytes are missing. */
  function Piece(f: File, no: nat, left: nat): (s: seq<Byte>)
    requires ValidFile(f) && ValidPageno(f, no)
    ensures |s| == if left > f.usable - 4 then f.usable - 4 else left
  {
    var size := if left > f.usable - 4 then f.usable - 4 else left;
    f.pages[no - 1][4..4 + size]
  }

  datatype Gathered = Chain(data: seq<Byte>, pages: seq<nat>) | Endless

  /** The pages from page `no` on, up to the first invalid page number; Endless after `fuel` pages. */
  function Gather(f: File, no: int, left: nat, fuel: nat): (g: Gathered)
    requires ValidFile(f)
    ensures g.Chain? ==> |g.data| <= left
    decreases fuel
  {
    if !ValidPageno(f, no) then Chain([], [])
    else if fuel == 0 then Endless
    else
      var s := Piece(f, no, left);
      var rest := Gather(f, NextPageno(f, no), left - |s|, fuel - 1);
      if rest.Endless? then Endless else Chain(s + rest.data, [no] + rest.pages)
  }

  /** The page number at which the loop over the overflow pages is after n turns; it stays at an invalid one. */
  function Link(f: File, no: int, n: nat): int
    requires ValidFile(f)
    decreases n
  {
    if n == 0 || !ValidPageno(f, no) then no else Link(f, NextPageno(f, no), n - 1)
  }

  /** The loop ends: after some number of turns it is at an invalid page number. */
  ghost predicate LoopEnds(f: File, no: int)
    requires ValidFile(f)
  {
    exists n: nat :: !ValidPageno(f, Link(f, no, n))
  }

  /** The loop comes to no page twice. */
  ghost predicate NoneTwice(f: File, no: int)
    requires ValidFile(f)
  {
    forall i: nat, j: nat :: i < j && ValidPageno(f, Link(f, no, j)) ==> Link(f, no, i) != Link(f, no, j)
  }

  /** The chain from page `no` on, which has at most as many pages as the file. */
  function Overflow(f: File, no: int, left: nat): (g: Gathered)
    requires ValidFile(f)
    ensures g.Chain? ==> |g.data| <= left
  {
    Gather(f, no, left, |f.pages|)
  }

  function Zeros(n: nat): (s: seq<Byte>)
    ensures |s| == n
  {
    seq(n, _ => 0)
  }

  datatype PayloadResult = Payload(data: seq<Byte>, overflow: seq<nat>) | NoPayload(rc: RC)

  /** Does the chain of the payload of this size, at this place, end? */
  ghost predicate ChainEnds(f: File, pageno: nat, offset: nat, size: int)
    requires ValidFile(f) && ValidPageno(f, pageno)
  {
    size > 0 ==>
      var local := Local(f.usable, size);
      var next := ParseInt64(f.pages[pageno - 1], offset + local, 4);
      local < size && next.Int? ==> LoopEnds(f, next.value)
  }

  /** The payload at this place: the buffer is zeroed when it is allocated. */
  function PayloadAt(f: File, pageno: nat, offset: nat, size: int): (r: PayloadResult)
    requires ValidFile(f) && ValidPageno(f, pageno)
    ensures r.NoPayload? ==> r.rc != OK
  {
    if size <= 0 then NoPayload(MISUSE)
    else
      var local := Local(f.usable, size);
      var page := f.pages[pageno - 1];
      if offset + local > f.pageSize then NoPayload(DAMAGED)
      else if local == size then Payload(page[offset..offset + local], [])
      else
        var next := ParseInt64(page, offset + local, 4);
        if !next.Int? then NoPayload(FAULT)
        else
          var g := Overflow(f, next.value, size - local);
          if g.Endless? then NoPayload(FAULT)
          else
            var have := page[offset..offset + local] + g.data;
            Payload(have + Zeros(size - |have|), g.pages)
  }

  /** A payload has its full size: what is on the page, what the chain adds, and zeros if that is too short. */
  lemma PayloadParts(f: File, pageno: nat, offset: nat, size: int)
    requires ValidFile(f) && ValidPageno(f, pageno) && PayloadAt(f, pageno, offset, size).Payload?
    ensures var r, local := PayloadAt(f, pageno, offset, size), Local(f.usable, size);
            && local <= |r.data| == size && offset + local <= f.pageSize
            && r.data[..local] == f.pages[pageno - 1][offset..offset + local]
            && (local == size ==> r.overflow == [])
            && (local < size ==>
                  var next := ParseInt64(f.pages[pageno - 1], offset + local, 4);
                  && next.Int? && Overflow(f, next.value, size - local).Chain?
                  && var g := Overflow(f, next.value, size - local);
                     && local + |g.data| <= size && r.overflow == g.pages
                     && r.data[local..local + |g.data|] == g.data
                     && forall i :: local + |g.data| <= i < size ==> r.data[i] == 0)
  {
    hide Overflow, Local, ParseInt64;
    LocalBounds(f.usable, size);
  }

  // ---------------------------------------------------------------------------------------------
  // Cells

  datatype Row = Row(rowid: nat, values: seq<Value>)

  /** What one cell gives: a row if rc is OK, and the overflow pages that were visited. */
  datatype CellResult = Cell(rc: RC, rows: seq<Row>, overflow: seq<nat>)

  datatype HeadResult = Head(size: int, rowid: nat, at: nat) | NoHead(rc: RC)

  /** The payload size and the rowid of the cell at `offset`, and where its payload starts. */
  function HeadAt(page: seq<Byte>, offset: int): (r: HeadResult)
    ensures r.NoHead? ==> r.rc != OK
    ensures r.Head? ==> r.at <= |page|
  {
    if offset < 0 then NoHead(FAULT)
    else
      match ParseVarint(page, offset)
      case VarintOutside => NoHead(FAULT)
      case VarintDamaged => NoHead(DAMAGED)
      case Number(n, size) =>
        match ParseVarint(page, offset + n)
        case VarintOutside => NoHead(FAULT)
        case VarintDamaged => NoHead(DAMAGED)
        case Number(m, rowid) => Head(Int32(size), rowid, offset + n + m)
  }

  /** The chain of the cell at `offset`, if it has one, ends. */
  ghost predicate CellEnds(f: File, pageno: nat, offset: int)
    requires ValidFile(f) && ValidPageno(f, pageno)
  {
    var head := HeadAt(f.pages[pageno - 1], offset);
    head.Head? ==> ChainEnds(f, pageno, head.at, head.size)
  }

  function CellAt(f: File, pageno: nat, offset: int): (c: CellResult)
    requires ValidFile(f) && ValidPageno(f, pageno)
    ensures |c.rows| == if c.rc == OK then 1 else 0
  {
    var head := HeadAt(f.pages[pageno - 1], offset);
    if head.NoHead? then Cell(head.rc, [], [])
    else CellOf(head.rowid, PayloadAt(f, pageno, head.at, head.size))
  }

  function CellOf(rowid: nat, payload: PayloadResult): (c: CellResult)
    requires payload.NoPayload? ==> payload.rc != OK
    ensures |c.rows| == if c.rc == OK then 1 else 0
  {
    if payload.NoPayload? then Cell(payload.rc, [], [])
    else
      match Record(payload.data)
      case Values(vs) => Cell(OK, [Row(rowid, vs)], payload.overflow)
      case Broken(rc) => Cell(rc, [], payload.overflow)
  }

  /** The loop over the overflow pages, for a chain on which it ends. */
  method ReadOverflow(f: File, first: int, size: nat) returns (data: seq<Byte>, overflow: seq<nat>)
    requires ValidFile(f) && LoopEnds(f, first)
    ensures Overflow(f, first, size) == Chain(data, overflow)
  {
    hide Gather, NextPageno, Follows, LoopEnds;
    LoopEndsExactly(f, first, size);
    data, overflow := [], [];
    var overflowPageno := first;
    ghost var left: nat := |f.pages|;
    FollowsStart(Overflow(f, first, size));
    while ValidPageno(f, overflowPageno)
      invariant |data| <= size
      invariant Follows(Overflow(f, first, size), data, overflow, Gather(f, overflowPageno, size - |data|, left))
      decreases left
    {
      FollowsStep(f, Overflow(f, first, size), data, overflow, overflowPageno, size - |data|, left);
      overflow := overflow + [overflowPageno];
      data := data + Piece(f, overflowPageno, size - |data|);
      overflowPageno := NextPageno(f, overflowPageno);
      left := left - 1;
    }
    FollowsEnd(f, Overflow(f, first, size), data, overflow, overflowPageno, size - |data|, left);
  }

  ghost predicate Follows(all: Gathered, data: seq<Byte>, pages: seq<nat>, rest: Gathered) {
    all.Chain? && rest.Chain? && all == Chain(data + rest.data, pages + rest.pages)
  }

  lemma FollowsStart(all: Gathered)
    requires all.Chain?
    ensures Follows(all, [], [], all)
  {
  }

  lemma FollowsEnd(f: File, all: Gathered, data: seq<Byte>, pages: seq<nat>, no: int, left: nat, fuel: nat)
    requires ValidFile(f) && !ValidPageno(f, no) && Follows(all, data, pages, Gather(f, no, left, fuel))
    ensures all == Chain(data, pages)
  {
    assert data + [] == data && pages + [] == pages;
  }

  lemma FollowsStep(f: File, all: Gathered, data: seq<Byte>, pages: seq<nat>, no: int, left: nat, fuel: nat)
    requires ValidFile(f) && ValidPageno(f, no) && Follows(all, data, pages, Gather(f, no, left, fuel))
    ensures fuel > 0
    ensures Follows(all, data + Piece(f, no, left), pages + [no],
                Gather(f, NextPageno(f, no), left - |Piece(f, no, left)|, fuel - 1))
  {
    hide Piece, NextPageno;
    var s, rest := Piece(f, no, left), Gather(f, NextPageno(f, no), left - |Piece(f, no, left)|, fuel - 1);
    assert data + (s + rest.data) == data + s + rest.data;
    assert pages + ([no] + rest.pages) == pages + [no] + rest.pages;
  }

  /** The first part of sqliterkBtreeParsePayload: the payload is put together. */
  method ReadPayload(f: File, pageno: nat, offset: nat, payloadSize: int) returns (r: PayloadResult)
    requires ValidFile(f) && ValidPageno(f, pageno) && ChainEnds(f, pageno, offset, payloadSize)
    ensures r == PayloadAt(f, pageno, offset, payloadSize)
    ensures payloadSize <= 0 ==> r == NoPayload(MISUSE)
    ensures payloadSize > 0 && offset + Local(f.usable, payloadSize) > f.pageSize ==> r == NoPayload(DAMAGED)
  {
    hide Overflow, LoopEnds, Local;
    if payloadSize <= 0 { return NoPayload(MISUSE); }
    var local := Local(f.usable, payloadSize);
    LocalBounds(f.usable, payloadSize);
    var page := f.pages[pageno - 1];
    if offset + local > f.pageSize { return NoPayload(DAMAGED); }
    if local == payloadSize { return Payload(page[offset..offset + local], []); }
    var next := ParseInt64(page, offset + local, 4);
    if !next.Int? { return NoPayload(FAULT); }
    var data, overflow := ReadOverflow(f, next.value, payloadSize - local);
    var have := page[offset..offset + local] + data;
    return Payload(have + Zeros(payloadSize - |have|), overflow);
  }

  /** The two varints at the start of a cell. */
  method ReadHead(page: seq<Byte>, offset: int) returns (r: HeadResult)
    ensures r == HeadAt(page, offset)
  {
    hide ParseVarint, Int32;
    if offset < 0 { return NoHead(FAULT); }
    var size := ParseVarint64(page, offset);
    if size.VarintOutside? { return NoHead(FAULT); }
    if size.VarintDamaged? { return NoHead(DAMAGED); }
    var rowid := ParseVarint64(page, offset + size.length);
    if rowid.VarintOutside? { return NoHead(FAULT); }
    if rowid.VarintDamaged? { return NoHead(DAMAGED); }
    return Head(Int32(size.value), rowid.value, offset + size.length + rowid.length);
  }

  /** One turn of the loop of sqliterkBtreeParseCell. */
  method ParseCell(f: File, pageno: nat, offset: int) returns (c: CellResult)
    requires ValidFile(f) && ValidPageno(f, pageno) && CellEnds(f, pageno, offset)
    ensures c == CellAt(f, pageno, offset)
  {
    hide PayloadAt, Record, ChainEnds, HeadAt;
    var head := ReadHead(f.pages[pageno - 1], offset);
    if head.NoHead? { return Cell(head.rc, [], []); }
    var payload := ReadPayload(f, pageno, head.at, head.size);
    if payload.NoPayload? { return Cell(payload.rc, [], []); }
    var rc, values := ParseRecord(payload.data);
    if rc != OK { return Cell(rc, [], payload.overflow); }
    return Cell(OK, [Row(head.rowid, values)], payload.overflow);
  }

  // ---------------------------------------------------------------------------------------------
  // Writing

  /** `data` is stored on the pages `chain` in order, and the last of them ends the chain with page number 0. */
  ghost predicate ChainWritten(f: File, chain: seq<nat>, data: seq<Byte>)
    requires ValidFile(f)
    decreases |chain|
  {
    && chain != [] && data != [] && ValidPageno(f, chain[0])
    && f.pages[chain[0] - 1][..4] == BigEndian(if |chain| == 1 then 0 else chain[1], 4)
    && (|chain| == 1 <==> |data| <= f.usable - 4)
    && (|chain| == 1 ==> f.pages[chain[0] - 1][4..4 + |data|] == data)
    && (|chain| > 1 ==> f.pages[chain[0] - 1][4..f.usable] == data[..f.usable - 4])
    && (|chain| > 1 ==> ChainWritten(f, chain[1..], data[f.usable - 4..]))
  }

  /** A cell for `row` is stored at `offset` of the page, with the part that does not fit on the pages `chain`. */
  ghost predicate CellWritten(f: File, pageno: nat, offset: nat, rowid: nat, payload: seq<Byte>, chain: seq<nat>)
    requires ValidFile(f) && ValidPageno(f, pageno)
  {
    var local := Local(f.usable, |payload|);
    var head := Varint(|payload|) + Varint(rowid);
    LocalBounds(f.usable, |payload|);
    var here := head + payload[..local] + (if chain == [] then [] else BigEndian(chain[0], 4));
    && offset + |here| <= f.pageSize && f.pages[pageno - 1][offset..offset + |here|] == here
    && if local == |payload| then chain == [] else ChainWritten(f, chain, payload[local..])
  }

  lemma PagenoRead(page: seq<Byte>, at: nat, no: nat)
    requires no < 2147483648 && at + 4 <= |page| && page[at..at + 4] == BigEndian(no, 4)
    ensures ParseInt64(page, at, 4) == Int(no)
  {
    hide ParseInt64, Signed, BigEndian;
    Powers();
    assert EncodeInt(no, 4) == BigEndian(no, 4);
    SignedOfEncodeInt(no, 4);
  }

  lemma PieceWritten(f: File, chain: seq<nat>, data: seq<Byte>)
    requires ValidFile(f) && ChainWritten(f, chain, data)
    ensures Piece(f, chain[0], |data|) == data[..|Piece(f, chain[0], |data|)|]
  {
  }

  /** A written chain is put together in order, and all its pages are visited. */
  lemma {:induction false} ChainRoundTrip(f: File, chain: seq<nat>, data: seq<Byte>, fuel: nat)
    requires ValidFile(f) && ChainWritten(f, chain, data) && fuel >= |chain|
    ensures Gather(f, chain[0], |data|, fuel) == Chain(data, chain)
    decreases |chain|
  {
    hide Piece, ParseInt64, NextPageno, Gather, ChainWritten;
    ChainParts(f, chain, data);
    var no, s := chain[0], Piece(f, chain[0], |data|);
    if |chain| == 1 {
      assert data[..|data|] == data && chain == [no];
      GatherStop(f, fuel - 1);
      GatherStep(f, no, |data|, fuel, [], []);
    } else {
      ChainRoundTrip(f, chain[1..], data[|s|..], fuel - 1);
      GatherStep(f, no, |data|, fuel, data[|s|..], chain[1..]);
      assert data == s + data[|s|..] && chain == [no] + chain[1..];
    }
  }

  /** The first page of a written chain. */
  lemma ChainParts(f: File, chain: seq<nat>, data: seq<Byte>)
    requires ValidFile(f) && ChainWritten(f, chain, data)
    ensures var s := Piece(f, chain[0], |data|);
            && chain != [] && ValidPageno(f, chain[0])
            && |s| <= |data| && s == data[..|s|] && (|chain| == 1 ==> |s| == |data|)
            && NextPageno(f, chain[0]) == (if |chain| == 1 then 0 else chain[1])
            && (|chain| > 1 ==> ChainWritten(f, chain[1..], data[|s|..]))
  {
    hide ParseInt64, BigEndian;
    PieceWritten(f, chain, data);
    var page := f.pages[chain[0] - 1];
    assert page[0..0 + 4] == page[..4];
    if |chain| > 1 { assert ValidPageno(f, chain[1..][0]); }
    PagenoRead(page, 0, if |chain| == 1 then 0 else chain[1]);
  }

  /** So is it by the loop, whatever the number of pages it takes. */
  lemma WrittenOverflow(f: File, chain: seq<nat>, data: seq<Byte>)
    requires ValidFile(f) && ChainWritten(f, chain, data)
    ensures LoopEnds(f, chain[0]) && Overflow(f, chain[0], |data|) == Chain(data, chain)
  {
    hide ChainWritten, Gather, LoopEnds;
    ChainHead(f, chain, data);
    ChainRoundTrip(f, chain, data, |chain|);
    GatherEnds(f, chain[0], |data|, |chain|);
    LoopEndsExactly(f, chain[0], |data|);
    if |chain| <= |f.pages| {
      GatherMore(f, chain[0], |data|, |chain|, |f.pages|);
    } else {
      GatherMore(f, chain[0], |data|, |f.pages|, |chain|);
    }
  }

  lemma GatherStop(f: File, fuel: nat)
    requires ValidFile(f)
    ensures Gather(f, 0, 0, fuel) == Chain([], [])
  {
  }

  lemma GatherStep(f: File, no: nat, left: nat, fuel: nat, data: seq<Byte>, pages: seq<nat>)
    requires ValidFile(f) && ValidPageno(f, no) && fuel > 0
    requires Gather(f, NextPageno(f, no), left - |Piece(f, no, left)|, fuel - 1) == Chain(data, pages)
    ensures Gather(f, no, left, fuel) == Chain(Piece(f, no, left) + data, [no] + pages)
  {
    hide Piece, NextPageno;
  }

  /** The head of a written cell is read. */
  lemma HeadRoundTrip(page: seq<Byte>, offset: nat, size: nat, rowid: nat, rest: seq<Byte>)
    requires size < 2147483648 && rowid < Pow(128, 8)
    requires var here := Varint(size) + Varint(rowid) + rest;
             offset + |here| <= |page| && page[offset..offset + |here|] == here
    ensures HeadAt(page, offset) == Head(size, rowid, offset + |Varint(size)| + |Varint(rowid)|)
  {
    hide ParseVarint, Varint, Pow;
    var a, b := Varint(size), Varint(rowid);
    var here := a + b + rest;
    var pre, post := page[..offset], page[offset + |here|..];
    assert page == pre + here + post;
    Splice(pre, a, b, rest, post);
    SmallVarint(pre, size, b + rest + post);
    BelowAll(rowid);
    VarintRoundTrip(pre + a, rowid, rest + post);
    Int32OfSmall(size);
  }

  lemma BelowAll(v: nat)
    requires v < Pow(128, 8)
    ensures v < 256 * Pow(128, 8)
  {
  }

  lemma Splice<T>(pre: seq<T>, a: seq<T>, b: seq<T>, c: seq<T>, post: seq<T>)
    ensures pre + (a + b + c) + post == pre + a + (b + c + post) == (pre + a) + b + (c + post)
  {
  }

  /** The payload of a written cell is put together. */
  lemma PayloadRoundTrip(f: File, pageno: nat, at: nat, payload: seq<Byte>, chain: seq<nat>)
    requires ValidFile(f) && ValidPageno(f, pageno) && payload != []
    requires var local := Local(f.usable, |payload|);
             local <= |payload|
             && var here := payload[..local] + (if chain == [] then [] else BigEndian(chain[0], 4));
             && at + |here| <= f.pageSize && f.pages[pageno - 1][at..at + |here|] == here
             && if local == |payload| then chain == [] else ChainWritten(f, chain, payload[local..])
    ensures PayloadAt(f, pageno, at, |payload|) == Payload(payload, chain) && ChainEnds(f, pageno, at, |payload|)
  {
    hide Overflow, LoopEnds, Local, BigEndian, ParseInt64, ChainWritten, PayloadAt, ChainEnds;
    var local, page := Local(f.usable, |payload|), f.pages[pageno - 1];
    if local == |payload| {
      assert payload[..local] == payload && payload[..local] + [] == payload;
      PayloadUnspilled(f, pageno, at, |payload|);
    } else {
      ChainHead(f, chain, payload[local..]);
      var link := BigEndian(chain[0], 4);
      SliceTail(page, at, payload[..local], link);
      PagenoRead(page, at + local, chain[0]);
      WrittenOverflow(f, chain, payload[local..]);
      PayloadSpilled(f, pageno, at, |payload|, chain[0], payload[local..], chain);
      assert payload == payload[..local] + payload[local..];
    }
  }

  lemma PayloadUnspilled(f: File, pageno: nat, at: nat, size: nat)
    requires ValidFile(f) && ValidPageno(f, pageno) && 0 < size == Local(f.usable, size) && at + size <= f.pageSize
    ensures PayloadAt(f, pageno, at, size) == Payload(f.pages[pageno - 1][at..at + size], [])
    ensures ChainEnds(f, pageno, at, size)
  {
    hide Local, ParseInt64;
  }

  lemma PayloadSpilled(f: File, pageno: nat, at: nat, size: nat, next: nat, data: seq<Byte>, pages: seq<nat>)
    requires ValidFile(f) && ValidPageno(f, pageno) && Local(f.usable, size) + |data| == size && data != []
    requires at + Local(f.usable, size) <= f.pageSize
    requires ParseInt64(f.pages[pageno - 1], at + Local(f.usable, size), 4) == Int(next)
    requires Overflow(f, next, |data|) == Chain(data, pages)
    ensures PayloadAt(f, pageno, at, size) ==
      Payload(f.pages[pageno - 1][at..at + Local(f.usable, size)] + data, pages)
    ensures LoopEnds(f, next) ==> ChainEnds(f, pageno, at, size)
  {
    hide Overflow, Local, ParseInt64, LoopEnds;
    var have := f.pages[pageno - 1][at..at + Local(f.usable, size)] + data;
    assert have + Zeros(0) == have;
  }

  lemma ChainHead(f: File, chain: seq<nat>, data: seq<Byte>)
    requires ValidFile(f) && ChainWritten(f, chain, data)
    ensures chain != [] && ValidPageno(f, chain[0])
  {
  }

  lemma SliceTail<T>(page: seq<T>, at: nat, a: seq<T>, b: seq<T>)
    requires at + |a + b| <= |page| && page[at..at + |a + b|] == a + b
    ensures page[at..at + |a|] == a && page[at + |a|..at + |a| + |b|] == b
  {
    assert page[at..at + |a|] == page[at..at + |a + b|][..|a|];
    assert page[at + |a|..at + |a| + |b|] == page[at..at + |a + b|][|a|..];
  }

  /** The parts of a written cell. */
  lemma CellParts(f: File, pageno: nat, offset: nat, rowid: nat, payload: seq<Byte>, chain: seq<nat>)
    requires ValidFile(f) && ValidPageno(f, pageno) && payload != [] && |payload| < 2147483648 && rowid < Pow(128, 8)
    requires CellWritten(f, pageno, offset, rowid, payload, chain)
    ensures var head := HeadAt(f.pages[pageno - 1], offset);
            && head.Head? && head.size == |payload| && head.rowid == rowid
            && PayloadAt(f, pageno, head.at, head.size) == Payload(payload, chain)
            && ChainEnds(f, pageno, head.at, head.size)
  {
    hide HeadAt, PayloadAt, Varint, BigEndian, Local, ChainWritten, Pow;
    var page, local := f.pages[pageno - 1], Local(f.usable, |payload|);
    var head, link := Varint(|payload|) + Varint(rowid), if chain == [] then [] else BigEndian(chain[0], 4);
    LocalBounds(f.usable, |payload|);
    Joined(head, payload[..local], link);
    HeadRoundTrip(page, offset, |payload|, rowid, payload[..local] + link);
    SliceTail(page, offset, head, payload[..local] + link);
    PayloadRoundTrip(f, pageno, offset + |head|, payload, chain);
  }

  lemma Joined<T>(a: seq<T>, b: seq<T>, c: seq<T>)
    ensures a + b + c == a + (b + c)
  {
  }

  /** Every row whose cell is stored in a file is read back, for rowids below 2^56. */
  lemma CellRoundTrip(f: File, pageno: nat, offset: nat, rowid: nat, row: seq<Field>, h: nat, chain: seq<nat>)
    requires ValidFile(f) && ValidPageno(f, pageno)
    requires ValidRow(row) && HeaderSize(row, h) && |RecordOf(row, h)| < 2147483648 && rowid < Pow(128, 8)
    requires CellWritten(f, pageno, offset, rowid, RecordOf(row, h), chain)
    ensures CellAt(f, pageno, offset) == Cell(OK, [Row(rowid, Meanings(row))], chain)
  {
    hide Record, PayloadAt, HeadAt, RecordOf, CellWritten, Pow;
    RecordNonempty(row, h);
    CellParts(f, pageno, offset, rowid, RecordOf(row, h), chain);
    RecordRoundTrip(row, h);
  }

  lemma RecordNonempty(row: seq<Field>, h: nat)
    ensures RecordOf(row, h) != []
  {
  }

  /** The chain of a written cell ends, so that it can be read. */
  lemma WrittenCellEnds(f: File, pageno: nat, offset: nat, rowid: nat, payload: seq<Byte>, chain: seq<nat>)
    requires ValidFile(f) && ValidPageno(f, pageno) && payload != [] && |payload| < 2147483648 && rowid < Pow(128, 8)
    requires CellWritten(f, pageno, offset, rowid, payload, chain)
    ensures CellEnds(f, pageno, offset)
  {
    hide PayloadAt, HeadAt, CellWritten, ChainEnds, Pow;
    CellParts(f, pageno, offset, rowid, payload, chain);
  }

  // ---------------------------------------------------------------------------------------------
  // When the loop over the overflow pages ends

  lemma {:induction false} LinkOn(f: File, no: int, i: nat, j: nat)
    requires ValidFile(f)
    ensures Link(f, no, i + j) == Link(f, Link(f, no, i), j)
    decreases i
  {
    if i > 0 && ValidPageno(f, no) {
      LinkOn(f, NextPageno(f, no), i - 1, j);
      assert i + j - 1 == (i - 1) + j;
    }
  }

  /** A chain that is gathered has ended, and the other way round. */
  lemma {:induction false} GatherEnds(f: File, no: int, left: nat, fuel: nat)
    requires ValidFile(f)
    ensures Gather(f, no, left, fuel).Chain? <==> !ValidPageno(f, Link(f, no, fuel))
    ensures Gather(f, no, left, fuel).Chain? ==> LoopEnds(f, no)
    decreases fuel
  {
    hide NextPageno, Piece;
    if ValidPageno(f, no) && fuel > 0 {
      GatherEnds(f, NextPageno(f, no), left - |Piece(f, no, left)|, fuel - 1);
    }
  }

  lemma {:induction false} GatherMore(f: File, no: int, left: nat, m: nat, n: nat)
    requires ValidFile(f) && m <= n && Gather(f, no, left, m).Chain?
    ensures Gather(f, no, left, n) == Gather(f, no, left, m)
    decreases m
  {
    hide NextPageno, Piece;
    if ValidPageno(f, no) {
      GatherMore(f, NextPageno(f, no), left - |Piece(f, no, left)|, m - 1, n - 1);
    }
  }

  /** Page numbers of the file that are all different are no more than it has pages. */
  lemma {:induction false} DistinctFit(s: seq<int>, n: nat)
    requires NoRepeats(s) && forall i :: 0 <= i < |s| ==> 1 <= s[i] <= n
    ensures |s| <= n
    decreases n
  {
    if s != [] {
      assert 1 <= s[0] <= n;
      if k :| 0 <= k < |s| && s[k] == n {
        var rest := s[..k] + s[k + 1..];
        forall i, j | 0 <= i < j < |rest| ensures rest[i] != rest[j] {
          assert s[if i < k then i else i + 1] != s[if j < k then j else j + 1];
        }
        DistinctFit(rest, n - 1);
      } else {
        DistinctFit(s, n - 1);
      }
    }
  }

  /** Once it is at a page for the second time the loop goes round for ever. */
  lemma {:induction false} RoundAndRound(f: File, no: int, i: nat, j: nat, n: nat)
    requires ValidFile(f) && i < j && Link(f, no, i) == Link(f, no, j) && ValidPageno(f, Link(f, no, j))
    ensures ValidPageno(f, Link(f, no, n))
    decreases n
  {
    if n >= j {
      LinkOn(f, no, j, n - j);
      LinkOn(f, no, i, n - j);
      RoundAndRound(f, no, i, j, i + (n - j));
    } else if !ValidPageno(f, Link(f, no, n)) {
      LinkOn(f, no, n, j - n);
    }
  }

  /**
    The loop ends if and only if it comes to no page twice, if and only if it ends within as many turns as
    the file has pages; exactly then the chain is gathered.
   */
  lemma LoopEndsExactly(f: File, no: int, left: nat)
    requires ValidFile(f)
    ensures LoopEnds(f, no) <==> NoneTwice(f, no)
    ensures LoopEnds(f, no) <==> !ValidPageno(f, Link(f, no, |f.pages|))
    ensures LoopEnds(f, no) <==> Overflow(f, no, left).Chain?
  {
    hide Gather, Link;
    GatherEnds(f, no, left, |f.pages|);
    if LoopEnds(f, no) {
      var n: nat :| !ValidPageno(f, Link(f, no, n));
      forall i: nat, j: nat | i < j && ValidPageno(f, Link(f, no, j)) ensures Link(f, no, i) != Link(f, no, j) {
        if Link(f, no, i) == Link(f, no, j) {
          RoundAndRound(f, no, i, j, n);
          assert false;
        }
      }
    }
    if NoneTwice(f, no) && ValidPageno(f, Link(f, no, |f.pages|)) {
      TooManyPages(f, no);
      assert false;
    }
  }

  lemma TooManyPages(f: File, no: int)
    requires ValidFile(f) && NoneTwice(f, no)
    ensures !ValidPageno(f, Link(f, no, |f.pages|))
  {
    var n := |f.pages|;
    if ValidPageno(f, Link(f, no, n)) {
      var s := seq(n + 1, i requires 0 <= i <= n => Link(f, no, i));
      forall i | 0 <= i <= n ensures ValidPageno(f, s[i]) {
        if !ValidPageno(f, s[i]) { LinkOn(f, no, i, n - i); }
      }
      DistinctFit(s, n);
      assert false;
    }
  }
}
