/**
  sqlcipher/src/backup.c: the incremental online backup.

  The source database is a sequence of pages that other users of the source change between steps; every
  page they write is reported through backupUpdate to an attached backup.  The destination is a file
  image; page writes are applied to it directly and rolled-back transactions are not modelled.  What the
  pager, the b-tree layer and the file system answer is supplied by the caller as data.
 */
module BackupModule {
  import opened Arith
  import opened Common
  import opened BackupImage

  datatype RC = OK | BUSY | LOCKED | DONE | READONLY | NOMEM | ERROR(code: nat)

  /** Results of pager and b-tree calls: anything but SQLITE_DONE. */
  type Io = rc: RC | rc != DONE witness OK

  /** Results of the copy made by an update; backupUpdate asserts that they are not BUSY or LOCKED. */
  type Hard = rc: RC | rc != DONE && rc != BUSY && rc != LOCKED witness OK

  /** isFatalError */
  predicate IsFatal(rc: RC) {
    rc != OK && rc != BUSY && rc != LOCKED
  }

  predicate Soft(rc: RC) {
    rc == BUSY || rc == LOCKED
  }

  type Header = h: seq<Byte> | |h| == 100 witness seq(100, _ => 0)

  /** The outcomes of the calls made by one sqlite3_backup_step. */
  datatype Env = Env(
    beginSrc: Io, setPgsz: Io, beginDest: Io,
    srcGet: nat -> Io, destIo: nat -> Io,
    meta: Io, setVersion: Io, journal: Io, phaseOne: Io, osWrite: nat -> Io, truncate: Io, sync: Io, phaseTwo: Io,
    header: Header)      // the first 100 bytes of page 1 as the commit leaves them

  /** No page read or page copy reports BUSY or LOCKED. */
  ghost predicate NoSoftPage(env: Env) {
    forall i: nat :: !Soft(env.srcGet(i)) && !Soft(env.destIo(i))
  }

  /** No part of the commit reports BUSY or LOCKED. */
  ghost predicate NoSoftCommit(env: Env) {
    && (forall i: nat :: !Soft(env.srcGet(i)) && !Soft(env.osWrite(i)))
    && !Soft(env.meta) && !Soft(env.setVersion) && !Soft(env.journal) && !Soft(env.phaseOne)
    && !Soft(env.truncate) && !Soft(env.sync) && !Soft(env.phaseTwo)
  }

  /** The read of page q, or the copy that follows it, reports `r`. */
  ghost predicate PageFails(env: Env, q: nat, r: RC) {
    env.srcGet(q) == r || (env.srcGet(q) == OK && exists i: nat :: env.destIo(i) == r)
  }

  /** The step may have returned `r`, a BUSY or LOCKED, because its commit reported it. */
  ghost predicate CommitReports(env: Env, r: RC) {
    Soft(r) && !Soft(env.beginSrc) && !NoSoftCommit(env)
  }

  /** The commit of the destination succeeds in full. */
  ghost predicate CommitOk(env: Env) {
    && (forall i: nat :: (i > 0 ==> env.srcGet(i) == OK) && env.osWrite(i) == OK)
    && env.meta == env.setVersion == env.journal == env.phaseOne == env.truncate == env.sync == env.phaseTwo == OK
  }

  /** The commit is stopped by its first phase. */
  predicate CommitBlocked(env: Env) {
    env.meta == env.setVersion == env.journal == OK && env.phaseOne != OK
  }

  type Page = seq<Byte>

  predicate IsDatabase(z: nat, src: seq<Page>) {
    |src| > 0 && forall q :: 0 <= q < |src| ==> |src[q]| == z
  }

  /** The bytes of source page q stand at the same absolute offsets of the destination. */
  ghost predicate PageCopied(pb: nat, s: nat, d: nat, page: Page, dst: seq<Byte>, q: nat)
    requires |page| == s && q > 0
  {
    forall o: nat :: Off(s, q) <= o < Off(s, q) + s && o >= 100 && !InPending(pb, d, o) ==>
      Holds(dst, page, Off(s, q), o)
  }

  /** The file has, at offset o, the byte of a page that starts at `start`. */
  predicate Holds(dst: seq<Byte>, page: Page, start: nat, o: nat) {
    start <= o < start + |page| && o < |dst| && dst[o] == page[o - start]
  }

  /**
    The result of a finished backup: same bytes outside page 1's header, the pending-byte page of the
    source and the pages in `missed`; no longer than the source; and of the same length, unless the source
    has the smaller pages and its last page is missed or is its pending-byte page.
   */
  ghost predicate Matches(pb: nat, s: nat, d: nat, src: seq<Page>, dst: seq<Byte>, missed: set<nat>)
    requires s > 0 && IsDatabase(s, src)
  {
    && |dst| <= FileSize(s, |src|)
    && (s >= d || (|src| !in missed && |src| != PendingPage(pb, s)) ==> |dst| == FileSize(s, |src|))
    && AllSame(pb, s, src, dst, missed)
  }

  /** Two contents of page q are the same, page 1's header apart. */
  predicate SameContent(s: nat, a: Page, b: Page, q: nat)
    requires |a| == |b| == s && q > 0
  {
    forall i: nat :: i < s && (q > 1 || i >= 100) ==> a[i] == b[i]
  }

  /** A copied page has the bytes of another one if and only if both have the same content. */
  lemma CopiedSameBytes(pb: nat, s: nat, d: nat, page: Page, other: Page, f: seq<Byte>, q: nat)
    requires |page| == |other| == s && s >= 512 && q > 0
    requires PageCopied(pb, s, d, page, f, q) && ClearOfPending(pb, s, d, q)
    ensures SameBytes(s, other, f, q) <==> SameContent(s, other, page, q)
  {
    var start := Off(s, q);
    if q > 1 { OffOrder(s, 1, q); }
    forall i: nat | i < s && start + i >= 100 ensures At(f, start + i) == page[i] {
      assert !InPending(pb, d, start + i);
      assert Holds(f, page, start, start + i);
    }
    if SameBytes(s, other, f, q) {
      forall i: nat | i < s && (q > 1 || i >= 100) ensures other[i] == page[i] {
        assert At(f, start + i) == other[start + i - start];
      }
    } else {
      var o: nat :| start <= o < start + s && o >= 100 && At(f, o) != other[o - start];
      var i: nat := o - start;
      assert At(f, start + i) == page[i] != other[i];
    }
  }

  /** The bytes of page q are unchanged, outside page 1's header and the destination's pending-byte page. */
  ghost predicate PageKept(pb: nat, s: nat, d: nat, f0: seq<Byte>, f1: seq<Byte>, q: nat)
    requires q > 0
  {
    forall o: nat :: Off(s, q) <= o < Off(s, q) + s && o >= 100 && !InPending(pb, d, o) ==> At(f1, o) == At(f0, o)
  }

  /** So are all the bytes below offset n. */
  ghost predicate KeptBelow(pb: nat, d: nat, f0: seq<Byte>, f1: seq<Byte>, n: nat) {
    forall o: nat :: 100 <= o < n && !InPending(pb, d, o) ==> At(f1, o) == At(f0, o)
  }

  ghost predicate AllKept(pb: nat, s: nat, d: nat, f0: seq<Byte>, f1: seq<Byte>, pages: set<nat>) {
    forall q: nat :: q in pages && q > 0 ==> PageKept(pb, s, d, f0, f1, q)
  }

  lemma KeptAll(pb: nat, s: nat, f: seq<Byte>)
    ensures forall d, pages :: AllKept(pb, s, d, f, f, pages)
  {}

  lemma AllKeptOn(pb: nat, s: nat, d: nat, f0: seq<Byte>, f1: seq<Byte>, f2: seq<Byte>, pages: set<nat>)
    requires AllKept(pb, s, d, f0, f1, pages) && AllKept(pb, s, d, f1, f2, pages)
    ensures AllKept(pb, s, d, f0, f2, pages)
  {
    KeptKeptOn(pb, s, d, f0, f1, f2);
  }

  lemma BelowKeepsPages(pb: nat, s: nat, d: nat, f0: seq<Byte>, f1: seq<Byte>, n: nat, pages: set<nat>)
    requires KeptBelow(pb, d, f0, f1, FileSize(s, n)) && forall q :: q in pages ==> q <= n
    ensures AllKept(pb, s, d, f0, f1, pages)
  {
    forall q: nat | q in pages && q > 0 ensures PageKept(pb, s, d, f0, f1, q) {
      OffOrder(s, q, n + 1);
      forall o: nat | Off(s, q) <= o < Off(s, q) + s && o >= 100 && !InPending(pb, d, o)
        ensures At(f1, o) == At(f0, o)
      {
        assert o < FileSize(s, n);
      }
    }
  }

  lemma OutsideKeepsPages(pb: nat, s: nat, d: nat, f0: seq<Byte>, f1: seq<Byte>, pg: nat)
    requires pg > 0 && SameOutside(s, f0, f1, pg)
    ensures forall q: nat :: q > 0 && q != pg ==> PageKept(pb, s, d, f0, f1, q)
  {
    forall q: nat | q > 0 && q != pg ensures PageKept(pb, s, d, f0, f1, q) {
      if q < pg { OffOrder(s, q, pg); } else { OffOrder(s, pg, q); }
    }
  }

  lemma KeptKeptOn(pb: nat, s: nat, d: nat, f0: seq<Byte>, f1: seq<Byte>, f2: seq<Byte>)
    ensures forall q: nat :: q > 0 ==> PageKept(pb, s, d, f0, f0, q)
    ensures forall q: nat :: q > 0 && PageKept(pb, s, d, f0, f1, q) && PageKept(pb, s, d, f1, f2, q) ==>
      PageKept(pb, s, d, f0, f2, q)
  {
    forall q: nat | q > 0 && PageKept(pb, s, d, f0, f1, q) && PageKept(pb, s, d, f1, f2, q)
      ensures PageKept(pb, s, d, f0, f2, q)
    {
      forall o: nat | Off(s, q) <= o < Off(s, q) + s && o >= 100 && !InPending(pb, d, o)
        ensures At(f2, o) == At(f0, o)
      {
        assert At(f1, o) == At(f0, o);
      }
    }
  }

  /**
    What a copy of page q leaves that stops at offset `reach`: the bytes below it are those of the page, and
    the others are as they were.
   */
  ghost predicate Cut(pb: nat, s: nat, d: nat, page: Page, f0: seq<Byte>, f1: seq<Byte>, q: nat, reach: nat)
    requires |page| == s && q > 0
  {
    forall o: nat :: Off(s, q) <= o < Off(s, q) + s && o >= 100 && !InPending(pb, d, o) ==>
      At(f1, o) == if o < reach then page[o - Off(s, q)] else At(f0, o)
  }

  /** A copy stops between two pieces; when the page is one piece, or is not read at all, before the first. */
  ghost predicate CutShort(pb: nat, s: nat, d: nat, env: Env, page: Page, f0: seq<Byte>, f1: seq<Byte>, q: nat)
    requires |page| == s && q > 0 && d > 0
  {
    exists reach: nat :: Stops(s, d, env, q, reach) && Cut(pb, s, d, page, f0, f1, q, reach)
  }

  ghost predicate Stops(s: nat, d: nat, env: Env, q: nat, reach: nat)
    requires q > 0 && d > 0
  {
    && Off(s, q) <= reach < Off(s, q) + s && Multiple(reach - Off(s, q), d)
    && (Soft(env.srcGet(q)) || s <= d ==> reach == Off(s, q))
  }

  lemma NothingSoFar(pb: nat, f: seq<Byte>, start: nat, d: nat, page: Page, count: seq<Byte>)
    ensures CopiedSoFar(pb, f, f, start, start, d, page, count) && (d > 0 ==> Multiple(start - start, d))
  {
  }

  lemma SoFarEnds(pb: nat, f0: seq<Byte>, f1: seq<Byte>, start: nat, reach: nat, end: nat, d: nat, page: Page,
                  count: seq<Byte>)
    requires CopiedSoFar(pb, f0, f1, start, reach, d, page, count) && end == start + |page| <= reach
    ensures CopiedSoFar(pb, f0, f1, start, end, d, page, count)
  {
  }

  lemma SoFarOutside(pb: nat, s: nat, d: nat, page: Page, f0: seq<Byte>, f1: seq<Byte>, q: nat, reach: nat,
                     count: seq<Byte>)
    requires |page| == s && q > 0 && CopiedSoFar(pb, f0, f1, Off(s, q), reach, d, page, count)
    ensures SameOutside(s, f0, f1, q)
  {
  }

  lemma SoFarIsCut(pb: nat, s: nat, d: nat, page: Page, f0: seq<Byte>, f1: seq<Byte>, q: nat, reach: nat,
                   count: seq<Byte>)
    requires |page| == s && q > 0 && |count| <= 4 && reach < Off(s, q) + s
    requires CopiedSoFar(pb, f0, f1, Off(s, q), reach, d, page, count)
    ensures Cut(pb, s, d, page, f0, f1, q, reach)
  {
    forall o: nat | Off(s, q) <= o < Off(s, q) + s && o >= 100 && !InPending(pb, d, o)
      ensures At(f1, o) == if o < reach then page[o - Off(s, q)] else At(f0, o)
    {
    }
  }

  /** A cut page after another change that left the page alone, or before one. */
  lemma CutOn(pb: nat, s: nat, d: nat, page: Page, f0: seq<Byte>, f1: seq<Byte>, f2: seq<Byte>, q: nat, reach: nat)
    requires |page| == s && q > 0
    ensures PageKept(pb, s, d, f0, f1, q) && Cut(pb, s, d, page, f1, f2, q, reach) ==>
      Cut(pb, s, d, page, f0, f2, q, reach)
    ensures Cut(pb, s, d, page, f0, f1, q, reach) && PageKept(pb, s, d, f1, f2, q) ==>
      Cut(pb, s, d, page, f0, f2, q, reach)
  {
    if PageKept(pb, s, d, f0, f1, q) && Cut(pb, s, d, page, f1, f2, q, reach) {
      forall o: nat | Off(s, q) <= o < Off(s, q) + s && o >= 100 && !InPending(pb, d, o)
        ensures At(f2, o) == if o < reach then page[o - Off(s, q)] else At(f0, o)
      {
        assert At(f1, o) == At(f0, o);
      }
    }
    if Cut(pb, s, d, page, f0, f1, q, reach) && PageKept(pb, s, d, f1, f2, q) {
      forall o: nat | Off(s, q) <= o < Off(s, q) + s && o >= 100 && !InPending(pb, d, o)
        ensures At(f2, o) == if o < reach then page[o - Off(s, q)] else At(f0, o)
      {
        assert At(f2, o) == At(f1, o);
      }
    }
  }

  lemma CutShortOn(pb: nat, s: nat, d: nat, env: Env, page: Page, f0: seq<Byte>, f1: seq<Byte>, f2: seq<Byte>, q: nat)
    requires |page| == s && q > 0 && d > 0 && PageKept(pb, s, d, f0, f1, q) && CutShort(pb, s, d, env, page, f1, f2, q)
    ensures CutShort(pb, s, d, env, page, f0, f2, q)
  {
    hide Cut, Stops;
    var reach: nat :| Stops(s, d, env, q, reach) && Cut(pb, s, d, page, f1, f2, q, reach);
    CutOn(pb, s, d, page, f0, f1, f2, q, reach);
  }

  lemma NothingCut(pb: nat, s: nat, d: nat, env: Env, page: Page, f: seq<Byte>, q: nat)
    requires |page| == s > 0 && q > 0 && d > 0
    ensures CutShort(pb, s, d, env, page, f, f, q)
  {
    assert Stops(s, d, env, q, Off(s, q)) && Cut(pb, s, d, page, f, f, q, Off(s, q));
  }

  /** Nothing is copied of a page that is cut at its start. */
  lemma CutAtStart(pb: nat, s: nat, d: nat, page: Page, f0: seq<Byte>, f1: seq<Byte>, q: nat)
    requires |page| == s && q > 0 && Cut(pb, s, d, page, f0, f1, q, Off(s, q))
    ensures PageKept(pb, s, d, f0, f1, q)
  {
  }

  /** The file has the bytes of the page from offset `reach` on. */
  ghost predicate SameFrom(s: nat, page: Page, f: seq<Byte>, q: nat, reach: nat)
    requires |page| == s && q > 0
  {
    forall o: nat :: Off(s, q) <= o < Off(s, q) + s && o >= 100 && o >= reach ==> At(f, o) == page[o - Off(s, q)]
  }

  /** A cut page matches the source if and only if what was not copied matched it before. */
  lemma CutMatches(pb: nat, s: nat, d: nat, page: Page, f0: seq<Byte>, f1: seq<Byte>, q: nat, reach: nat)
    requires |page| == s && q > 0 && Cut(pb, s, d, page, f0, f1, q, reach) && ClearOfPending(pb, s, d, q)
    ensures SameBytes(s, page, f1, q) <==> SameFrom(s, page, f0, q, reach)
  {
    assert forall o: nat :: Off(s, q) <= o < Off(s, q) + s && o >= 100 ==>
      At(f1, o) == if o < reach then page[o - Off(s, q)] else At(f0, o);
  }

  /** Page q lies outside the pending-byte page of either side. */
  predicate ClearOfPending(pb: nat, s: nat, d: nat, q: nat)
    requires q > 0
  {
    Off(s, q) + s <= pb || pb + d <= Off(s, q)
  }

  /** A page that is left as it was matches the source if and only if it did before. */
  lemma KeptMatches(pb: nat, s: nat, d: nat, page: Page, f0: seq<Byte>, f1: seq<Byte>, q: nat)
    requires |page| == s && q > 0 && PageKept(pb, s, d, f0, f1, q) && ClearOfPending(pb, s, d, q)
    ensures SameBytes(s, page, f1, q) <==> SameBytes(s, page, f0, q)
  {
    assert forall o: nat :: Off(s, q) <= o < Off(s, q) + s && o >= 100 ==> At(f1, o) == At(f0, o);
  }

  /**
    The file has the bytes of the page in its place, page 1's header apart; beyond the end of the file
    they read as zero.
   */
  ghost predicate SameBytes(s: nat, page: Page, f: seq<Byte>, q: nat)
    requires |page| == s && q > 0
  {
    forall o: nat :: Off(s, q) <= o < Off(s, q) + s && o >= 100 ==> At(f, o) == page[o - Off(s, q)]
  }

  ghost predicate SamePage(s: nat, page: Page, dst: seq<Byte>, q: nat)
    requires |page| == s && q > 0
  {
    forall o: nat :: Off(s, q) <= o < Off(s, q) + s && o >= 100 ==> Holds(dst, page, Off(s, q), o)
  }

  /** Bytes outside page q are as before, so every other copied page stays copied. */
  lemma OtherPageKept(pb: nat, s: nat, d: nat, page: Page, old_: seq<Byte>, new_: seq<Byte>, q: nat, r: nat)
    requires |page| == s && q > 0 && r > 0 && q != r && PageCopied(pb, s, d, page, old_, r)
    requires |old_| <= |new_|
    requires forall o: nat :: !(Off(s, q) <= o < Off(s, q) + s) ==> At(new_, o) == At(old_, o)
    ensures PageCopied(pb, s, d, page, new_, r)
  {
    if q < r { OffOrder(s, q, r); } else { OffOrder(s, r, q); }
    forall o: nat | Off(s, r) <= o < Off(s, r) + s && o >= 100 && !InPending(pb, d, o)
      ensures Holds(new_, page, Off(s, r), o)
    {
      assert At(new_, o) == At(old_, o) && Holds(old_, page, Off(s, r), o);
    }
  }

  /** A step that copies page 1 overwrites its page-count field, at byte 28; an update does not. */
  function CountField(bUpdate: bool, nSrcPage: nat): (count: seq<Byte>)
    ensures |count| <= 4
  {
    if bUpdate then [] else Put4(nSrcPage)
  }

  /** What backupOnePage puts at absolute offset o for a page that starts at `start`. */
  function CopiedByte(page: Page, start: nat, count: seq<Byte>, o: nat): Byte
    requires start <= o < start + |page|
  {
    if start == 0 && 28 <= o < 28 + |count| then count[o - 28] else page[o - start]
  }

  /** nCopy in backupOnePage. */
  function PieceSize(s: nat, d: nat): nat {
    if s < d then s else d
  }

  ghost predicate Located(pb: nat, s: nat, d: nat, pg: nat, iOff: nat, iDest: nat, inDest: nat, inSrc: nat,
                          pending: bool)
    requires pg > 0
  {
    && iDest > 0 && Off(d, iDest) + inDest == iOff && inDest + PieceSize(s, d) <= d
    && Off(s, pg) + inSrc == iOff && inSrc + PieceSize(s, d) <= s
    && (s < d ==> inSrc == 0)
    && (if pending then InsidePending(pb, d, iOff, PieceSize(s, d)) else OutsidePending(pb, d, iOff, PieceSize(s, d)))
  }

  ghost predicate InsidePending(pb: nat, d: nat, iOff: nat, n: nat) {
    forall o: nat :: iOff <= o < iOff + n ==> InPending(pb, d, o)
  }

  ghost predicate OutsidePending(pb: nat, d: nat, iOff: nat, n: nat) {
    forall o: nat :: iOff <= o < iOff + n ==> !InPending(pb, d, o)
  }

  /**
    The offset arithmetic of backupOnePage's loop: the destination page that holds offset iOff, the
    place of iOff in it and in the source page.  The whole piece fits in both pages, and lies entirely
    inside or entirely outside the destination's pending-byte page.
   */
  method Locate(pb: nat, s: nat, d: nat, pg: nat, iOff: nat)
    returns (iDest: nat, inDest: nat, inSrc: nat, pending: bool)
    requires PageSizes(pb, s, d) && pg > 0
    requires Off(s, pg) <= iOff < Off(s, pg) + s && Multiple(iOff - Off(s, pg), d)
    ensures Located(pb, s, d, pg, iOff, iDest, inDest, inSrc, pending)
  {
    var block, pendingBlock, ignored;
    block, inDest := Divide(iOff, d);
    ignored, inSrc := Divide(iOff, s);
    pendingBlock, ignored := Divide(pb, d);
    iDest, pending := block + 1, block == pendingBlock;
    OffLocates(d, iOff);
    OnlyPage(s, iOff, pg);
    PieceFits(pb, s, d, pg, iOff);
    forall o: nat | iOff <= o < iOff + PieceSize(s, d) ensures pending <==> InPending(pb, d, o) {
      OnlyPage(d, o, Quot(d, iOff) + 1);
      PendingIsPage(pb, d, o);
    }
  }

  lemma PieceFits(pb: nat, s: nat, d: nat, pg: nat, iOff: nat)
    requires PageSizes(pb, s, d) && pg > 0
    requires Off(s, pg) <= iOff < Off(s, pg) + s && Multiple(iOff - Off(s, pg), d)
    ensures iOff - Off(s, pg) + PieceSize(s, d) <= s
    ensures s < d ==> iOff == Off(s, pg)
    ensures Rem(d, iOff) + PieceSize(s, d) <= d
  {
    OffMultiple(s, pg);
    if s < d {
      RemOfMultiple(Off(s, pg), d, s);
      MultipleGap(Rem(d, iOff), d, s);
    } else {
      MultipleGap(iOff - Off(s, pg), s, d);
      MultipleTrans(Off(s, pg), s, d);
      MultiplePlus(Off(s, pg), iOff - Off(s, pg), d);
      RemZero(iOff, d);
    }
  }

  /** f1 is f0 after the bytes of the page from `start` up to `reach` have been copied. */
  ghost predicate CopiedSoFar(pb: nat, f0: seq<Byte>, f1: seq<Byte>, start: nat, reach: nat, d: nat, page: Page,
                              count: seq<Byte>) {
    && |f1| >= |f0|
    && (forall o: nat :: start <= o < reach && o < start + |page| && !InPending(pb, d, o) ==>
          o < |f1| && f1[o] == CopiedByte(page, start, count, o))
    && (forall o: nat :: !(start <= o < reach && o < start + |page|) || InPending(pb, d, o) ==> At(f1, o) == At(f0, o))
  }

  lemma SkipExtends(pb: nat, f0: seq<Byte>, f1: seq<Byte>, start: nat, iOff: nat, n: nat, d: nat, page: Page,
                    count: seq<Byte>)
    requires CopiedSoFar(pb, f0, f1, start, iOff, d, page, count) && start <= iOff
    requires iOff + n <= start + |page| && (n == d || iOff + n == start + |page|)
    requires InsidePending(pb, d, iOff, n)
    ensures CopiedSoFar(pb, f0, f1, start, iOff + d, d, page, count)
  {}

  /** f2 is f1 with the piece of the page at iOff put in place. */
  ghost predicate PieceIn(f1: seq<Byte>, f2: seq<Byte>, start: nat, iOff: nat, n: nat, page: Page, count: seq<Byte>) {
    && |f2| >= |f1| && |f2| >= iOff + n && start <= iOff && iOff + n <= start + |page|
    && (forall o: nat :: iOff <= o < iOff + n ==> At(f2, o) == CopiedByte(page, start, count, o))
    && (forall o: nat :: !(iOff <= o < iOff + n) ==> At(f2, o) == At(f1, o))
  }

  lemma PieceInExtends(pb: nat, f0: seq<Byte>, f1: seq<Byte>, f2: seq<Byte>, start: nat, n: nat, d: nat, iOff: nat,
                       page: Page, count: seq<Byte>)
    requires CopiedSoFar(pb, f0, f1, start, iOff, d, page, count) && PieceIn(f1, f2, start, iOff, n, page, count)
    requires (n == d || iOff + n == start + |page|) && n <= d && OutsidePending(pb, d, iOff, n)
    ensures CopiedSoFar(pb, f0, f2, start, iOff + d, d, page, count)
  {
    forall o: nat | start <= o < iOff + d && o < start + |page| && !InPending(pb, d, o)
      ensures o < |f2| && f2[o] == CopiedByte(page, start, count, o)
    {
      assert At(f2, o) == f2[o];
      if o < iOff { assert At(f2, o) == At(f1, o); }
    }
    forall o: nat | !(start <= o < iOff + d && o < start + |page|) || InPending(pb, d, o)
      ensures At(f2, o) == At(f0, o)
    {
      assert At(f2, o) == At(f1, o);
    }
  }

  // ---------------------------------------------------------------------------------------------
  // Which pages are copied

  ghost predicate CopiedIn(pb: nat, s: nat, d: nat, src: seq<Page>, dst: seq<Byte>, q: nat)
    requires IsDatabase(s, src) && 1 <= q <= |src|
  {
    PageCopied(pb, s, d, src[q - 1], dst, q)
  }

  /** Every page below n is copied, but for the source's pending-byte page and the missed ones. */
  ghost predicate CopiedBelow(pb: nat, s: nat, d: nat, src: seq<Page>, dst: seq<Byte>, n: nat, missed: set<nat>)
    requires s > 0 && IsDatabase(s, src)
  {
    forall q: nat :: 1 <= q < n && q <= |src| && q != PendingPage(pb, s) && q !in missed ==>
      CopiedIn(pb, s, d, src, dst, q)
  }

  /** Beyond the last page nothing is left to copy. */
  lemma NoneBeyond(pb: nat, s: nat, d: nat, src: seq<Page>, n: nat, missed: set<nat>)
    requires s > 0 && IsDatabase(s, src) && n > |src|
    ensures forall f: seq<Byte> :: CopiedBelow(pb, s, d, src, f, n, missed) <==>
      CopiedBelow(pb, s, d, src, f, |src| + 1, missed)
  {}

  /** f1 differs from f0 only inside page pg. */
  ghost predicate SameOutside(s: nat, f0: seq<Byte>, f1: seq<Byte>, pg: nat)
    requires pg > 0
  {
    |f1| >= |f0| && forall o: nat :: !(Off(s, pg) <= o < Off(s, pg) + s) ==> At(f1, o) == At(f0, o)
  }

  lemma OthersKept(pb: nat, s: nat, d: nat, src: seq<Page>, f0: seq<Byte>, f1: seq<Byte>, pg: nat, n: nat,
                   missed: set<nat>)
    requires s > 0 && IsDatabase(s, src) && pg > 0 && SameOutside(s, f0, f1, pg)
    requires CopiedBelow(pb, s, d, src, f0, n, missed)
    ensures CopiedBelow(pb, s, d, src, f1, n, missed + {pg})
  {
    forall q: nat | 1 <= q < n && q <= |src| && q != PendingPage(pb, s) && q !in missed + {pg}
      ensures CopiedIn(pb, s, d, src, f1, q)
    {
      assert CopiedIn(pb, s, d, src, f0, q);
      OtherPageKept(pb, s, d, src[q - 1], f0, f1, pg, q);
    }
  }

  lemma CopiedThis(pb: nat, s: nat, d: nat, src: seq<Page>, f0: seq<Byte>, f1: seq<Byte>, pg: nat, count: seq<Byte>)
    requires |count| <= 4 && s >= 512 && IsDatabase(s, src) && 1 <= pg <= |src|
    requires CopiedSoFar(pb, f0, f1, Off(s, pg), Off(s, pg) + s, d, src[pg - 1], count)
    ensures CopiedIn(pb, s, d, src, f1, pg) && SameOutside(s, f0, f1, pg)
  {}

  /** A successful copy of page pg, after which it is no longer missed. */
  lemma CopyGains(pb: nat, s: nat, d: nat, src: seq<Page>, f0: seq<Byte>, f1: seq<Byte>, pg: nat, count: seq<Byte>,
                  n: nat, missed: set<nat>)
    requires |count| <= 4 && s >= 512 && IsDatabase(s, src) && 1 <= pg <= |src|
    requires CopiedSoFar(pb, f0, f1, Off(s, pg), Off(s, pg) + s, d, src[pg - 1], count)
    requires CopiedBelow(pb, s, d, src, f0, n, missed)
    ensures CopiedBelow(pb, s, d, src, f1, n, missed - {pg})
    ensures n == pg ==> CopiedBelow(pb, s, d, src, f1, n + 1, missed - {pg})
  {
    CopiedThis(pb, s, d, src, f0, f1, pg, count);
    OthersKept(pb, s, d, src, f0, f1, pg, n, missed);
  }

  /** A page skipped or partly written after an error counts as missed. */
  lemma FailureLoses(pb: nat, s: nat, d: nat, src: seq<Page>, f0: seq<Byte>, f1: seq<Byte>, pg: nat, missed: set<nat>)
    requires s > 0 && IsDatabase(s, src) && pg > 0 && SameOutside(s, f0, f1, pg)
    requires CopiedBelow(pb, s, d, src, f0, pg, missed)
    ensures CopiedBelow(pb, s, d, src, f1, pg + 1, missed + {pg})
  {
    OthersKept(pb, s, d, src, f0, f1, pg, pg, missed);
  }

  // ---------------------------------------------------------------------------------------------
  // Finishing

  /** Every page, bar the source's pending-byte page and the missed ones, is in the image. */
  ghost predicate AllSame(pb: nat, s: nat, src: seq<Page>, dst: seq<Byte>, missed: set<nat>)
    requires s > 0 && IsDatabase(s, src)
  {
    forall q: nat :: 1 <= q <= |src| && q != PendingPage(pb, s) && q !in missed ==> SameIn(s, src, dst, q)
  }

  ghost predicate SameIn(s: nat, src: seq<Page>, dst: seq<Byte>, q: nat)
    requires IsDatabase(s, src) && 1 <= q <= |src|
  {
    SamePage(s, src[q - 1], dst, q)
  }

  /** The pages of the source that lie in the destination's pending-byte page, from PendingPage + 1 up to n. */
  ghost predicate ExtraSame(pb: nat, s: nat, src: seq<Page>, dst: seq<Byte>, n: nat)
    requires s > 0 && IsDatabase(s, src)
  {
    forall q: nat :: PendingPage(pb, s) < q < n && q <= |src| ==> SameIn(s, src, dst, q)
  }

  lemma ExtraStep(pb: nat, s: nat, src: seq<Page>, dst: seq<Byte>, q: nat)
    requires s > 0 && IsDatabase(s, src) && PendingPage(pb, s) < q <= |src| && ExtraSame(pb, s, src, dst, q)
    ensures ExtraSame(pb, s, src, WriteAt(dst, Off(s, q), src[q - 1]), q + 1)
    ensures SameOutside(s, dst, WriteAt(dst, Off(s, q), src[q - 1]), q)
  {
    var f := WriteAt(dst, Off(s, q), src[q - 1]);
    forall r: nat | PendingPage(pb, s) < r < q + 1 && r <= |src| ensures SameIn(s, src, f, r) {
      var page, start := src[r - 1], Off(s, r);
      if r < q {
        OffOrder(s, r, q);
        assert SameIn(s, src, dst, r);
      }
      forall o: nat | start <= o < start + s && o >= 100 ensures Holds(f, page, start, o) {
        assert r < q ==> Holds(dst, page, start, o) && At(f, o) == At(dst, o);
        assert At(f, o) == page[o - start];
      }
    }
  }

  lemma NoneExtra(pb: nat, s: nat, src: seq<Page>, dst: seq<Byte>)
    requires s > 0 && IsDatabase(s, src)
    ensures ExtraSame(pb, s, src, dst, PendingPage(pb, s) + 1)
  {
  }

  /** The loop over these pages starts with the one after the source's pending-byte page, */
  lemma ExtraStart(pb: nat, s: nat, d: nat)
    requires PageSizes(pb, s, d)
    ensures Off(s, PendingPage(pb, s) + 1) == pb + s
  {
    PendingOffset(pb, s);
  }

  /** each of its turns is for a page of the source, */
  lemma ExtraTurn(pb: nat, s: nat, d: nat, n: nat, q: nat)
    requires PageSizes(pb, s, d) && s < d && q > PendingPage(pb, s) && Off(s, q) < Min(pb + d, Off(s, n + 1))
    ensures q <= n && Off(s, q) + s == Off(s, q + 1) <= Min(pb + d, Off(s, n + 1))
  {
    hide Multiple, PendingPage;
    if n + 1 < q { OffOrder(s, n + 1, q); }
    if q < n { OffOrder(s, q, n + 1); }
    OffMultiple(s, q);
    MultipleIsSmaller(s, d);
    MultiplePlus(pb, d, s);
    MultipleGap(Off(s, q), pb + d, s);
  }

  /** and after the last one no page is left. */
  lemma ExtraEnd(pb: nat, s: nat, d: nat, n: nat, q: nat)
    requires q > 0 && Off(s, q) >= Min(pb + d, Off(s, n + 1)) && s > 0
    ensures q > n || Off(s, q) >= pb + d
  {
    if q <= n { OffOrder(s, q, n + 1); }
  }

  lemma KeptStart(pb: nat, d: nat, f: seq<Byte>, n: nat)
    ensures KeptBelow(pb, d, f, f, n)
  {
  }

  lemma ResizedKept(pb: nat, d: nat, f: seq<Byte>, g: seq<Byte>, n: nat)
    requires g == f || g == Resize(f, n)
    ensures KeptBelow(pb, d, f, g, n)
  {
  }

  lemma KeptOn(pb: nat, d: nat, f0: seq<Byte>, f1: seq<Byte>, f2: seq<Byte>, n: nat)
    requires KeptBelow(pb, d, f0, f1, n) && KeptBelow(pb, d, f1, f2, n)
    ensures KeptBelow(pb, d, f0, f2, n)
  {
    forall o: nat | 100 <= o < n && !InPending(pb, d, o)
      ensures At(f2, o) == At(f0, o)
    {
      assert At(f1, o) == At(f0, o);
    }
  }

  /** Writing inside the destination's pending-byte page leaves the copied pages copied. */
  lemma PendingWriteKeeps(pb: nat, s: nat, d: nat, src: seq<Page>, f0: seq<Byte>, f1: seq<Byte>, n: nat,
                          missed: set<nat>)
    requires s > 0 && IsDatabase(s, src) && CopiedBelow(pb, s, d, src, f0, n, missed)
    requires |f1| >= |f0| && forall o: nat :: !InPending(pb, d, o) ==> At(f1, o) == At(f0, o)
    ensures CopiedBelow(pb, s, d, src, f1, n, missed)
  {
    forall q: nat | 1 <= q < n && q <= |src| && q != PendingPage(pb, s) && q !in missed
      ensures CopiedIn(pb, s, d, src, f1, q)
    {
      assert CopiedIn(pb, s, d, src, f0, q);
      forall o: nat | Off(s, q) <= o < Off(s, q) + s && o >= 100 && !InPending(pb, d, o)
        ensures Holds(f1, src[q - 1], Off(s, q), o)
      {
        assert At(f1, o) == At(f0, o) && Holds(f0, src[q - 1], Off(s, q), o);
      }
    }
  }

  /** A copied page clear of the destination's pending-byte page is the same in full. */
  lemma NotPendingSame(pb: nat, s: nat, d: nat, src: seq<Page>, dst: seq<Byte>, q: nat)
    requires IsDatabase(s, src) && 1 <= q <= |src| && CopiedIn(pb, s, d, src, dst, q)
    requires Off(s, q) + s <= pb || pb + d <= Off(s, q)
    ensures SameIn(s, src, dst, q)
  {
    var page, start := src[q - 1], Off(s, q);
    forall o: nat | start <= o < start + s && o >= 100 ensures Holds(dst, page, start, o) {
      assert !InPending(pb, d, o);
    }
  }

  /** Copied pages plus the extra ones are all the pages, when the destination's pages are larger. */
  lemma SmallPagesAllSame(pb: nat, s: nat, d: nat, src: seq<Page>, dst: seq<Byte>, n: nat, missed: set<nat>)
    requires PageSizes(pb, s, d) && IsDatabase(s, src) && CopiedBelow(pb, s, d, src, dst, |src| + 1, missed)
    requires ExtraSame(pb, s, src, dst, n) && (n > |src| || (n > 0 && Off(s, n) >= pb + d))
    ensures AllSame(pb, s, src, dst, missed)
  {
    PendingOffset(pb, s);
    forall q: nat | 1 <= q <= |src| && q != PendingPage(pb, s) && q !in missed ensures SameIn(s, src, dst, q) {
      assert CopiedIn(pb, s, d, src, dst, q);
      if PendingPage(pb, s) < q < n {
        assert SameIn(s, src, dst, q);
      } else {
        if q < PendingPage(pb, s) { OffOrder(s, q, PendingPage(pb, s)); } else if n < q { OffOrder(s, n, q); }
        NotPendingSame(pb, s, d, src, dst, q);
      }
    }
  }

  /** And when they are not larger, the copied pages are already all the pages. */
  lemma LargePagesAllSame(pb: nat, s: nat, d: nat, src: seq<Page>, dst: seq<Byte>, missed: set<nat>)
    requires PageSizes(pb, s, d) && d <= s && IsDatabase(s, src) && CopiedBelow(pb, s, d, src, dst, |src| + 1, missed)
    ensures AllSame(pb, s, src, dst, missed)
  {
    PendingOffset(pb, s);
    forall q: nat | 1 <= q <= |src| && q != PendingPage(pb, s) && q !in missed ensures SameIn(s, src, dst, q) {
      assert CopiedIn(pb, s, d, src, dst, q);
      if q < PendingPage(pb, s) { OffOrder(s, q, PendingPage(pb, s)); } else { OffOrder(s, PendingPage(pb, s), q); }
      NotPendingSame(pb, s, d, src, dst, q);
    }
  }

  /** The image cut or extended to exactly n bytes. */
  function Resize(f: seq<Byte>, n: nat): (g: seq<Byte>)
    ensures |g| == n && forall o: nat :: o < n ==> At(g, o) == At(f, o)
  {
    seq(n, o requires 0 <= o => At(f, o))
  }

  lemma ResizeKeeps(pb: nat, s: nat, d: nat, src: seq<Page>, f: seq<Byte>, m: nat, n: nat, missed: set<nat>)
    requires s > 0 && IsDatabase(s, src) && m >= Off(s, |src| + 1)
    ensures CopiedBelow(pb, s, d, src, f, n, missed) ==> CopiedBelow(pb, s, d, src, Resize(f, m), n, missed)
    ensures AllSame(pb, s, src, f, missed) ==> AllSame(pb, s, src, Resize(f, m), missed)
  {
    var g := Resize(f, m);
    forall q: nat | 1 <= q <= |src|
      ensures CopiedIn(pb, s, d, src, f, q) ==> CopiedIn(pb, s, d, src, g, q)
      ensures SameIn(s, src, f, q) ==> SameIn(s, src, g, q)
    {
      OffOrder(s, q, |src| + 1);
      var page, start := src[q - 1], Off(s, q);
      forall o: nat | start <= o < start + s && Holds(f, page, start, o) ensures Holds(g, page, start, o) {
        assert At(g, o) == At(f, o);
      }
    }
  }

  /** The committed page 1 header. */
  function WithHeader(f: seq<Byte>, header: Header): (g: seq<Byte>)
    ensures |g| == Max(|f|, 100) && forall o: nat :: o >= 100 ==> At(g, o) == At(f, o)
  {
    WriteAt(f, 0, header)
  }

  lemma HeaderKeeps(pb: nat, s: nat, d: nat, src: seq<Page>, f: seq<Byte>, header: Header, n: nat, missed: set<nat>)
    requires s > 0 && IsDatabase(s, src) && CopiedBelow(pb, s, d, src, f, n, missed)
    ensures CopiedBelow(pb, s, d, src, WithHeader(f, header), n, missed)
  {
    var g := WithHeader(f, header);
    forall q: nat | 1 <= q < n && q <= |src| && q != PendingPage(pb, s) && q !in missed
      ensures CopiedIn(pb, s, d, src, g, q)
    {
      assert CopiedIn(pb, s, d, src, f, q);
      assert forall o: nat :: o >= 100 ==> At(g, o) == At(f, o);
    }
  }

  /**
    The length of the file once the source pages in the destination's pending-byte page are written: it
    reaches the end of the last of them.
   */
  function Extended(len: nat, pb: nat, s: nat, d: nat, nSrcPage: nat): nat {
    if pb + s < Min(pb + d, FileSize(s, nSrcPage)) then Max(len, Min(pb + d, FileSize(s, nSrcPage))) else len
  }

  /** The file reaches the end of the source before it is truncated. */
  lemma LongEnough(pb: nat, s: nat, src: seq<Page>, dst: seq<Byte>, missed: set<nat>)
    requires s >= 512 && IsDatabase(s, src) && AllSame(pb, s, src, dst, missed)
    requires |src| !in missed && |src| != PendingPage(pb, s)
    ensures |dst| >= Off(s, |src| + 1)
  {
    assert SameIn(s, src, dst, |src|);
    var o := Off(s, |src|) + s - 1;
    assert Holds(dst, src[|src| - 1], Off(s, |src|), o);
  }

  /** nDestTruncate: the final number of destination pages. */
  function DestTruncate(pb: nat, s: nat, d: nat, nSrcPage: nat): int
    requires s > 0 && d > 0 && (s < d ==> d / s > 0)
  {
    if s < d then
      var ratio := d / s;
      var n := (nSrcPage + ratio - 1) / ratio;
      if n == PendingPage(pb, d) then n - 1 else n
    else
      nSrcPage * (s / d)
  }

  lemma RatioExact(s: nat, d: nat)
    requires s > 0 && d > 0 && Multiple(d, s)
    ensures (d / s) * s == d && d / s > 0
  {
    QuotientRemainder(s, d);
    RemZero(d, s);
    QuotTimes(s, d);
  }

  lemma CeilCovers(n: nat, r: nat, s: nat)
    requires r > 0 && n > 0
    ensures (n + r - 1) / r > 0
    ensures n * s <= ((n + r - 1) / r) * (r * s) < n * s + r * s || s == 0
  {
    var c := (n + r - 1) / r;
    assert n + r - 1 == c * r + (n + r - 1) % r;
    assert n <= c * r <= n + r - 1;
    assert c * (r * s) == (c * r) * s;
    Scale(n, c * r, s);
    Scale(c * r, n + r - 1, s);
    assert (n + r - 1) * s == n * s + r * s - s;
  }

  /**
    The truncation count covers the source, as the code asserts: to the byte when the source pages are
    not the smaller ones, else rounded up, or one page short when it would end in the pending-byte page.
   */
  lemma TruncateCovers(pb: nat, s: nat, d: nat, nSrcPage: nat)
    requires PageSizes(pb, s, d) && nSrcPage > 0
    ensures s < d ==> d / s > 0
    ensures var n := DestTruncate(pb, s, d, nSrcPage); var iSize := s * nSrcPage;
            && n > 0
            && (s >= d ==> n * d == iSize)
            && (s < d ==> n * d >= iSize || (n == PendingPage(pb, d) - 1 && pb <= iSize <= pb + d))
  {
    if s < d {
      RatioExact(s, d);
      CeilCovers(nSrcPage, d / s, s);
      PendingOffset(pb, d);
      OffProduct(d, PendingPage(pb, d));
      var c := (nSrcPage + d / s - 1) / (d / s);
      assert nSrcPage * s <= c * d < nSrcPage * s + d;
      MultipleGap(0, pb, d);
      assert PendingPage(pb, d) * d == pb + d;
      assert PendingPage(pb, d) > 1;
    } else {
      RatioExact(d, s);
      assert (nSrcPage * (s / d)) * d == nSrcPage * ((s / d) * d);
    }
  }

  /** What a step sees of a backup. */
  datatype View = View(pb: nat, S: nat, isMemdb: bool, isWal: bool, src: seq<Page>, inTransaction: bool,
                       D: nat, dst: seq<Byte>, bDestLocked: bool, iNext: nat, isAttached: bool, missed: set<nat>,
                       nRemaining: int, nPagecount: nat)

  ghost predicate Sane(v: View) {
    PageSizes(v.pb, v.S, v.D) && IsDatabase(v.S, v.src) && v.iNext > 0
  }

  /** What stops a step before its first page, in this order, and what the locks leave. */
  ghost predicate LocksDecide(env: Env, v0: View, v1: View, r: RC) {
    && v1.bDestLocked == (v0.bDestLocked
         || (!v0.inTransaction && env.beginSrc == OK && env.setPgsz != NOMEM && env.beginDest == OK))
    && v1.D == (if !v0.inTransaction && env.beginSrc == OK && !v0.bDestLocked && env.setPgsz == OK then v0.S else v0.D)
    && if v0.inTransaction then r == BUSY
       else if env.beginSrc != OK then r == env.beginSrc
       else if !v0.bDestLocked && env.setPgsz == NOMEM then r == NOMEM
       else if !v0.bDestLocked && env.beginDest != OK then r == env.beginDest
       else v0.isWal && v0.S != v1.D ==> r == READONLY
  }

  /** Nothing has stopped it. */
  ghost predicate Passes(env: Env, v0: View, v1: View) {
    !v0.inTransaction && env.beginSrc == OK && v1.bDestLocked && !(v0.isWal && v0.S != v1.D)
  }

  /** An in-memory destination keeps its own page size, and then nothing can be copied into it. */
  ghost predicate Forbidden(v: View) {
    v.S != v.D && v.isMemdb
  }

  /** What one step does that finds the backup neither failed nor done. */
  ghost predicate Stepped(env: Env, nPage: int, v0: View, v1: View, r: RC) {
    && Sane(v0) && Sane(v1) && LocksDecide(env, v0, v1, r)
    && var v := v0.(bDestLocked := v1.bDestLocked, D := v1.D);
       if Passes(env, v0, v1) then Copies(env, nPage, v, v1, r) else v1 == v && Halts(r)
  }

  /** The results of a step that is stopped before its first page. */
  predicate Halts(r: RC) {
    r != OK && r != DONE
  }

  /** What a step does that nothing has stopped before its first page. */
  ghost predicate Copies(env: Env, nPage: int, v0: View, v1: View, r: RC)
    requires Sane(v0) && Sane(v1)
  {
    && v1 == v0.(dst := v1.dst, iNext := v1.iNext, isAttached := v0.isAttached || r == OK, missed := v1.missed,
                 nRemaining := v1.nRemaining, nPagecount := v1.nPagecount)
    && (r == OK || r == DONE ==> Counts(nPage, v0, v1, r))
    && (r == DONE ==> Matches(v0.pb, v0.S, v0.D, v0.src, v1.dst, v1.missed))
    && MissedBy(env, v0, v1, r) && PagesDecide(env, nPage, v0, v1, r)
  }

  /** A step that does not fail copies nPage pages, or all that are left, and counts what is left then. */
  predicate Counts(nPage: int, v0: View, v1: View, r: RC) {
    && (if v0.iNext > |v0.src| then v1.iNext == v0.iNext else v0.iNext <= v1.iNext <= |v0.src| + 1)
    && (v1.iNext == v0.iNext + nPage || v1.iNext > |v0.src|) && (nPage >= 0 ==> v1.iNext <= v0.iNext + nPage)
    && (r == DONE <==> v1.iNext > |v0.src|)
    && v1.nPagecount == |v0.src| && v1.nRemaining == |v0.src| + 1 - v1.iNext
  }

  /** Which pages are missed after a step, and what stands in their place. */
  ghost predicate MissedBy(env: Env, v0: View, v1: View, r: RC)
    requires Sane(v0) && Sane(v1) && v1.src == v0.src && v1.S == v0.S
  {
    // No page becomes missed but the one, if any, whose read or copy reports BUSY or LOCKED.
    && (v1.missed == v0.missed ||
          (Soft(r) && Backup.Skips(env, v0.iNext, v1.iNext, r) && v1.missed == v0.missed + {v1.iNext - 1}))
    && (Soft(r) && NoSoftCommit(env) ==> v1.iNext - 1 in v1.missed - v0.missed)
    // The missed pages are left as they were, except one whose copy was cut short between two of its pieces.
    && AllKept(v0.pb, v0.S, v1.D, v0.dst, v1.dst, v0.missed)
    && (Soft(r) && v1.iNext - 1 in v1.missed - v0.missed ==>
          && 2 <= v1.iNext <= |v0.src| + 1
          && CutShort(v0.pb, v0.S, v1.D, env, v0.src[v1.iNext - 2], v0.dst, v1.dst, v1.iNext - 1))
  }

  /** Changes go unreported only after a page or a commit failed while the backup was not attached. */
  lemma StepStaysTracked(env: Env, nPage: int, v0: View, v1: View, r: RC)
    requires Stepped(env, nPage, v0, v1, r) && !IsFatal(r) && NoSoftPage(env)
    requires v0.missed == {} && (v0.iNext > 1 ==> v0.isAttached)
    requires v0.isAttached || !CommitReports(env, r)
    ensures v1.missed == {} && (v1.iNext > 1 ==> v1.isAttached)
  {
    hide PagesDecide, Matches, AllKept, CutShort, NoSoftCommit, PageSizes, IsDatabase;
  }

  /** How the pages and the commit decide about a step that nothing has stopped. */
  ghost predicate PagesDecide(env: Env, nPage: int, v0: View, v1: View, r: RC)
    requires Sane(v0) && Sane(v1)
  {
    var pb, s, d, i, n := v0.pb, v0.S, v1.D, v0.iNext, |v0.src|;
    // It moves past the page whose read fails.
    && (!Forbidden(v1) ==> forall q: nat :: Backup.ReadFails(env, pb, s, d, i, nPage, q, n) ==>
          r == env.srcGet(q) && v1.iNext == q + 1 && (Soft(r) ==> v1.missed == v0.missed + {q}))
    && (!Forbidden(v1) && Backup.CopiesSome(env, pb, s, d, i, nPage, n) ==> r == OK)
    // With every page copied, the commit decides.
    && ((!Forbidden(v1) || i > n) && Backup.CopiesAll(env, pb, s, d, i, nPage, n) ==>
          && (CommitOk(env) ==> r == DONE)
          && (CommitBlocked(env) ==> r == env.phaseOne && v1.iNext > n && v1.missed == v0.missed
                                     && v1.iNext == Backup.NextAfter(i, nPage, n)))
    && (i > n && r == DONE ==> FinalImage(env, pb, s, d, n, v0.dst, v1.dst))
  }

  /** What the copy loop does. */
  ghost predicate Looped(env: Env, nPage: int, v0: View, v1: View, r: RC)
    requires Sane(v0) && Sane(v1)
  {
    var pb, s, d, i, n := v0.pb, v0.S, v0.D, v0.iNext, |v0.src|;
    && v1 == v0.(dst := v1.dst, iNext := v1.iNext, missed := v0.missed + if Soft(r) then {v1.iNext - 1} else {})
    && AllKept(pb, s, d, v0.dst, v1.dst, v0.missed)
    && (i > n ==> r == OK && v1.dst == v0.dst) && (r == OK ==> v1.iNext == Backup.NextAfter(i, nPage, n))
    && (Soft(r) ==> i < v1.iNext <= n + 1 && PageFails(env, v1.iNext - 1, r)
                    && CutShort(pb, s, d, env, v0.src[v1.iNext - 2], v0.dst, v1.dst, v1.iNext - 1))
    && (!Forbidden(v0) ==>
          && (Backup.CopiesTo(env, pb, s, d, i, n + 1) ==> r == OK)
          && (Backup.CopiesTo(env, pb, s, d, i, Backup.NextAfter(i, nPage, n)) ==> r == OK)
          && forall q: nat :: Backup.ReadFails(env, pb, s, d, i, nPage, q, n) ==>
            r == env.srcGet(q) != OK && v1.iNext == q + 1)
  }

  /** And what comes after it, unless a page has failed. */
  ghost predicate Ended(env: Env, v0: View, v1: View, r: RC)
    requires Sane(v0) && Sane(v1)
  {
    var pb, s, d, i, n := v0.pb, v0.S, v0.D, v0.iNext, |v0.src|;
    && v1 == v0.(dst := v1.dst, isAttached := v0.isAttached || r == OK, nPagecount := n, nRemaining := n + 1 - i)
    && AllKept(pb, s, d, v0.dst, v1.dst, v0.missed)
    && (r == OK <==> i <= n) && (r == DONE ==> Matches(pb, s, d, v0.src, v1.dst, v0.missed))
    && (NoSoftCommit(env) ==> !Soft(r))
    && (i > n ==> (CommitBlocked(env) ==> r == env.phaseOne) && (CommitOk(env) ==> r == DONE))
    && (r == DONE ==> FinalImage(env, pb, s, d, n, v0.dst, v1.dst))
  }

  /** Both together. */
  lemma LoopAndEnd(env: Env, nPage: int, v0: View, v1: View, r1: Io, v2: View, r2: RC)
    requires Sane(v0) && Sane(v1) && Sane(v2) && Looped(env, nPage, v0, v1, r1)
    requires if r1 == OK then Ended(env, v1, v2, r2) else v2 == v1 && r2 == r1
    requires forall q :: q in v0.missed ==> q < v0.iNext
    ensures Copies(env, nPage, v0, v2, r2)
  {
    hide Backup.CopiesTo, Backup.ReadFails, CommitOk, CommitBlocked, FinalImage, PageSizes, IsDatabase, Matches;
    hide CutShort, PageFails, NoSoftCommit, AllKept, PagesDecide;
    assert !Soft(r1) ==> v1.missed == v0.missed;
    if r1 == OK {
      AllKeptOn(v0.pb, v0.S, v0.D, v0.dst, v1.dst, v2.dst, v0.missed);
    }
    LoopAndEndDecide(env, nPage, v0, v1, r1, v2, r2);
  }

  lemma LoopAndEndDecide(env: Env, nPage: int, v0: View, v1: View, r1: Io, v2: View, r2: RC)
    requires Sane(v0) && Sane(v1) && Sane(v2) && Looped(env, nPage, v0, v1, r1)
    requires if r1 == OK then Ended(env, v1, v2, r2) else v2 == v1 && r2 == r1
    ensures PagesDecide(env, nPage, v0, v2, r2)
  {
    hide Backup.CopiesTo, Backup.ReadFails, CommitOk, CommitBlocked, FinalImage, PageSizes, IsDatabase, Matches;
    hide CutShort, PageFails, NoSoftCommit, AllKept;
    assert !Soft(r1) ==> v1.missed == v0.missed;
  }

  /** The image that a step leaves that finds nothing left to copy and is DONE. */
  ghost predicate FinalImage(env: Env, pb: nat, s: nat, d: nat, n: nat, f0: seq<Byte>, f1: seq<Byte>)
  {
    if s >= d then f1 == Resize(WithHeader(f0, env.header), FileSize(s, n))
    else |f1| == Min(Extended(Max(|f0|, 100), pb, s, d, n), FileSize(s, n))
  }

  class Backup {
    const pb: nat               // PENDING_BYTE
    const S: nat                // source page size
    var D: nat                  // destination page size
    const isMemdb: bool         // destination is an in-memory database
    const isWal: bool           // destination is in WAL mode
    var src: seq<Page>          // the source database
    var inTransaction: bool     // a write transaction is open on the source
    var dst: seq<Byte>          // the destination image
    var bDestLocked: bool
    var iNext: nat
    var rc: RC
    var nRemaining: int
    var nPagecount: nat
    var isAttached: bool
    ghost var missed: set<nat>  // pages below iNext whose copy reported BUSY or LOCKED, or changed without a report

    ghost predicate Shape()
      reads this
    {
      && PageSizes(pb, S, D) && IsDatabase(S, src)
      && iNext >= 1 && (isAttached ==> bDestLocked)
    }

    /** Every page below iNext has been copied and is current, except the missed ones. */
    ghost predicate Valid()
      reads this
    {
      && Shape()
      && (!IsFatal(rc) ==>
            && (iNext > 1 ==> bDestLocked)
            && (forall q :: q in missed ==> 1 <= q < iNext && q <= |src|)
            && CopiedBelow(pb, S, D, src, dst, iNext, missed))
    }

    /** Every change of a copied page is reported, and no page is missed. */
    ghost predicate Tracked()
      reads this
    {
      missed == {} && (iNext > 1 ==> isAttached)
    }

    /** sqlite3_backup_init */
    constructor (pb: nat, S: nat, D: nat, isMemdb: bool, isWal: bool, src: seq<Page>, dst: seq<Byte>)
      requires PageSizes(pb, S, D) && IsDatabase(S, src)
      ensures Valid() && this.pb == pb && this.S == S && this.D == D && this.src == src && this.dst == dst
      ensures this.isMemdb == isMemdb && this.isWal == isWal
      ensures rc == OK && iNext == 1 && !isAttached && missed == {} && !inTransaction
    {
      this.pb := pb;
      this.S, this.D, this.isMemdb, this.isWal, this.src, this.dst := S, D, isMemdb, isWal, src, dst;
      inTransaction, bDestLocked, iNext, rc, isAttached := false, false, 1, OK, false;
      nRemaining, nPagecount, missed := 0, 0, {};
    }

    /** The call for the destination page in which offset o lies reports `r`. */
    static ghost predicate PieceFails(destIo: nat -> Io, d: nat, o: nat, r: RC) {
      exists k: nat :: k > 0 && Off(d, k) <= o && destIo(k) == r
    }

    static lemma PieceFailsBelow(destIo: nat -> Io, d: nat, o: nat, p: nat, r: RC)
      requires PieceFails(destIo, d, o, r) && o <= p
      ensures PieceFails(destIo, d, p, r)
    {
    }

    /** The body of backupOnePage's loop. */
    method CopyToDestPage(iSrcPg: nat, iOff: nat, zSrcData: Page, count: seq<Byte>, destIo: nat -> Io,
                          ghost f0: seq<Byte>)
      returns (r: Io)
      requires Shape() && iSrcPg > 0 && |zSrcData| == S
      requires Off(S, iSrcPg) <= iOff < Off(S, iSrcPg) + S && Multiple(iOff - Off(S, iSrcPg), D)
      requires (iOff == 0 || iOff >= 32) && |count| <= 4
      requires CopiedSoFar(pb, f0, dst, Off(S, iSrcPg), iOff, D, zSrcData, count)
      modifies this`dst
      ensures r == OK ==> CopiedSoFar(pb, f0, dst, Off(S, iSrcPg), iOff + D, D, zSrcData, count)
      ensures r != OK ==> dst == old(dst) && PieceFails(destIo, D, iOff, r)
    {
      var iDest, inDest, inSrc, pending := Locate(pb, S, D, iSrcPg, iOff);
      r := OK;
      if pending {
        SkipExtends(pb, f0, dst, Off(S, iSrcPg), iOff, PieceSize(S, D), D, zSrcData, count);
      } else {
        r := destIo(iDest);
        if r == OK {
          ghost var f1 := dst;
          PutPiece(iSrcPg, iOff, iDest, inDest, inSrc, zSrcData, count);
          PieceInExtends(pb, f0, f1, dst, Off(S, iSrcPg), PieceSize(S, D), D, iOff, zSrcData, count);
        }
      }
    }

    /** memcpy into destination page iDest, and then the page-count field if the page is the first. */
    method PutPiece(iSrcPg: nat, iOff: nat, iDest: nat, inDest: nat, inSrc: nat, zSrcData: Page, count: seq<Byte>)
      requires S >= 512 && D >= 512 && iSrcPg > 0 && |zSrcData| == S && |count| <= 4 && (iOff == 0 || iOff >= 32)
      requires Located(pb, S, D, iSrcPg, iOff, iDest, inDest, inSrc, false)
      modifies this`dst
      ensures PieceIn(old(dst), dst, Off(S, iSrcPg), iOff, PieceSize(S, D), zSrcData, count)
    {
      var zIn := zSrcData[inSrc..inSrc + PieceSize(S, D)];
      dst := WriteAt(Pad(dst, Off(D, iDest) + D), Off(D, iDest) + inDest, zIn);
      assert forall o: nat :: At(dst, o) == if iOff <= o < iOff + |zIn| then zIn[o - iOff] else At(old(dst), o);
      if iOff == 0 && count != [] {
        dst := WriteAt(dst, 28, count);
      }
    }

    /**
      backupOnePage: each byte of the page goes to its own absolute offset of the destination; nothing
      else changes, except the page-count field when page 1 is copied by a step.
     */
    method BackupOnePage(iSrcPg: nat, zSrcData: Page, bUpdate: bool, destIo: nat -> Io) returns (r: Io)
      requires Shape() && iSrcPg > 0 && |zSrcData| == S
      modifies this`dst
      ensures Shape()
      ensures r == OK ==>
        CopiedSoFar(pb, old(dst), dst, Off(S, iSrcPg), Off(S, iSrcPg) + S, D, zSrcData, CountField(bUpdate, |src|))
      ensures SameOutside(S, old(dst), dst, iSrcPg)
      ensures r != OK ==> (CopyForbidden() && r == READONLY) || PieceFails(destIo, D, Off(S, iSrcPg) + S - 1, r)
      ensures r != OK ==>
        exists reach: nat :: StopsAt(iSrcPg, reach) && Cut(pb, S, D, zSrcData, old(dst), dst, iSrcPg, reach)
    {
      hide CopiedSoFar, Cut, Multiple, PieceFails, Off, SameOutside;
      var count := CountField(bUpdate, |src|);
      var iStart := Off(S, iSrcPg);
      var iOff, iEnd := iStart, iStart + S;
      ghost var f0, reach := dst, iOff;
      r := if CopyForbidden() then READONLY else OK;
      NothingSoFar(pb, f0, iStart, D, zSrcData, count);
      FirstOffset(S, iSrcPg);
      while r == OK && iOff < iEnd
        invariant iStart <= reach <= iOff && Multiple(iOff - iStart, D) && (iOff == iStart || iOff >= iStart + D)
        invariant Multiple(reach - iStart, D) && (r == OK ==> reach == iOff) && (r != OK ==> reach < iEnd)
        invariant S <= D && r != OK ==> reach == iStart
        invariant CopiedSoFar(pb, f0, dst, iStart, reach, D, zSrcData, count)
        invariant r != OK ==> (CopyForbidden() && r == READONLY) || PieceFails(destIo, D, iEnd - 1, r)
        decreases iEnd - iOff
      {
        r := CopyToDestPage(iSrcPg, iOff, zSrcData, count, destIo, f0);
        if r != OK { PieceFailsBelow(destIo, D, iOff, iEnd - 1, r); }
        MultiplePlus(iOff - iStart, D, D);
        iOff := iOff + D;
        if r == OK { reach := iOff; }
      }
      SoFarOutside(pb, S, D, zSrcData, f0, dst, iSrcPg, reach, count);
      if r != OK {
        SoFarIsCut(pb, S, D, zSrcData, f0, dst, iSrcPg, reach, count);
      } else {
        SoFarEnds(pb, f0, dst, iStart, reach, iEnd, D, zSrcData, count);
      }
    }

    /** The copy of page q stops between two of its pieces; there is only one if the pages are not the larger ones. */
    ghost predicate StopsAt(q: nat, reach: nat)
      reads this
      requires q > 0 && D > 0
    {
      Off(S, q) <= reach < Off(S, q) + S && Multiple(reach - Off(S, q), D) && (S <= D ==> reach == Off(S, q))
    }

    /** One round of the copy loop of sqlite3_backup_step. */
    method CopyNext(env: Env) returns (r: Io)
      requires Shape() && iNext <= |src| && CopiedBelow(pb, S, D, src, dst, iNext, missed)
      requires forall q :: q in missed ==> 1 <= q < iNext
      modifies this`dst, this`iNext, this`missed
      ensures Shape() && iNext == old(iNext) + 1
      ensures missed == old(missed) + (if Soft(r) then {old(iNext)} else {})
      ensures r == OK || Soft(r) ==> CopiedBelow(pb, S, D, src, dst, iNext, missed)
      ensures Soft(r) ==> PageFails(env, old(iNext), r)
      ensures SameOutside(S, old(dst), dst, old(iNext))
      ensures Soft(r) ==> CutShort(pb, S, D, env, src[old(iNext) - 1], old(dst), dst, old(iNext))
      ensures old(iNext) != PendingPage(pb, S) && env.srcGet(old(iNext)) != OK ==> r == env.srcGet(old(iNext))
      ensures CopiesTo(env, pb, S, D, old(iNext), iNext) && !CopyForbidden() ==> r == OK
    {
      hide CopiedIn, CopiedSoFar, PageCopied, Quot, Rem, Cut, Multiple;
      r := OK;
      var pendingPage, ignored := Divide(pb, S);
      ghost var f0 := dst;
      if iNext != pendingPage + 1 {
        r := env.srcGet(iNext);
        if r == OK {
          r := BackupOnePage(iNext, src[iNext - 1], false, env.destIo);
          if Soft(r) {
            ghost var reach: nat :| StopsAt(iNext, reach) && Cut(pb, S, D, src[iNext - 1], f0, dst, iNext, reach);
            assert Stops(S, D, env, iNext, reach);
          }
        }
        if r == OK {
          CopyGains(pb, S, D, src, f0, dst, iNext, CountField(false, |src|), iNext, missed);
          assert missed - {iNext} == missed;
        } else {
          FailureLoses(pb, S, D, src, f0, dst, iNext, missed);
          if env.srcGet(iNext) != OK { NothingCut(pb, S, D, env, src[iNext - 1], dst, iNext); }
        }
      }
      if Soft(r) {
        missed := missed + {iNext};
      }
      iNext := iNext + 1;
    }

    /** An in-memory destination keeps its own page size, and then nothing can be copied into it. */
    predicate CopyForbidden()
      reads this
    {
      S != D && isMemdb
    }

    /** The reads of the pages from i up to q, and the calls for the destination pages below q, all succeed. */
    static ghost predicate CopiesTo(env: Env, pb: nat, s: nat, d: nat, i: nat, q: nat)
      requires s > 0 && q > 0
    {
      && (forall k: nat :: i <= k < q && k != PendingPage(pb, s) ==> env.srcGet(k) == OK)
      && (forall k: nat :: k > 0 && Off(d, k) < Off(s, q) ==> env.destIo(k) == OK)
    }

    static lemma CopiesToPart(env: Env, pb: nat, s: nat, d: nat, i: nat, n: nat)
      requires s > 0 && i <= n && n > 0
      ensures forall q: nat :: q > n && CopiesTo(env, pb, s, d, i, q) ==> CopiesTo(env, pb, s, d, n, n + 1)
    {
      OffIncreases(s, n + 1);
    }

    /** A step of nPage pages that starts at page i reaches page q, and there sqlite3PagerGet fails. */
    static ghost predicate ReadFails(env: Env, pb: nat, s: nat, d: nat, i: nat, nPage: int, q: nat, nSrcPage: nat)
      requires s > 0
    {
      && 1 <= i <= q <= nSrcPage && (nPage < 0 || q - i < nPage) && q != PendingPage(pb, s)
      && env.srcGet(q) != OK && CopiesTo(env, pb, s, d, i, q)
    }

    /** The next page to copy after a step of nPage pages, or of all of them if nPage is negative. */
    static function NextAfter(i: nat, nPage: int, nSrcPage: nat): nat {
      if i > nSrcPage then i else if nPage < 0 || i + nPage > nSrcPage then nSrcPage + 1 else i + nPage
    }

    /** The copy loop of sqlite3_backup_step. */
    method CopyPages(nPage: int, env: Env) returns (r: Io)
      requires Shape() && CopiedBelow(pb, S, D, src, dst, iNext, missed)
      requires forall q :: q in missed ==> 1 <= q < iNext
      modifies this`dst, this`iNext, this`missed
      ensures Shape() && iNext >= old(iNext)
      ensures r == OK || Soft(r) ==> CopiedBelow(pb, S, D, src, dst, iNext, missed)
      ensures r == OK ==> iNext == NextAfter(old(iNext), nPage, |src|)
      ensures missed == old(missed) + (if Soft(r) then {iNext - 1} else {})
      ensures Soft(r) ==> old(iNext) < iNext <= |src| + 1 && PageFails(env, iNext - 1, r)
      ensures AllKept(pb, S, D, old(dst), dst, old(missed))
      ensures Soft(r) ==> CutShort(pb, S, D, env, src[iNext - 2], old(dst), dst, iNext - 1)
      ensures old(iNext) > |src| ==> r == OK && dst == old(dst) && iNext == old(iNext)
      ensures CopiesTo(env, pb, S, D, old(iNext), |src| + 1) && !CopyForbidden() ==> r == OK
      ensures CopiesTo(env, pb, S, D, old(iNext), NextAfter(old(iNext), nPage, |src|)) && !CopyForbidden() ==> r == OK
      ensures !CopyForbidden() ==> forall q: nat :: ReadFails(env, pb, S, D, old(iNext), nPage, q, |src|) ==>
        r == env.srcGet(q) != OK && iNext == q + 1
    {
      hide CopiedBelow, PageKept, PageFails, PendingPage, SameOutside, CutShort, CopiesTo;
      var ii := 0;
      r := OK;
      KeptKeptOn(pb, S, D, dst, dst, dst);
      while (nPage < 0 || ii < nPage) && iNext <= |src| && r == OK
        invariant Shape() && iNext >= old(iNext)
        invariant iNext == old(iNext) + ii && (ii > 0 ==> iNext <= |src| + 1) && (nPage >= 0 && ii > 0 ==> ii <= nPage)
        invariant missed == old(missed) + (if Soft(r) then {iNext - 1} else {})
        invariant Soft(r) ==> ii > 0 && PageFails(env, iNext - 1, r)
        invariant AllKept(pb, S, D, old(dst), dst, old(missed))
        invariant r == OK ==> forall q: nat :: q >= iNext ==> PageKept(pb, S, D, old(dst), dst, q)
        invariant Soft(r) ==> CutShort(pb, S, D, env, src[iNext - 2], old(dst), dst, iNext - 1)
        invariant r == OK || Soft(r) ==> CopiedBelow(pb, S, D, src, dst, iNext, missed)
        invariant ii == 0 ==> r == OK && dst == old(dst) && iNext == old(iNext)
        invariant old(iNext) > |src| ==> ii == 0
        invariant !CopyForbidden() ==> forall q: nat :: q >= iNext && CopiesTo(env, pb, S, D, old(iNext), q) ==> r == OK
        invariant !CopyForbidden() ==> forall q: nat :: ReadFails(env, pb, S, D, old(iNext), nPage, q, |src|) ==>
          (iNext > q ==> r == env.srcGet(q) && iNext == q + 1)
        decreases |src| + 1 - iNext
      {
        ghost var f1 := dst;
        r := CopyNext(env);
        OutsideKeepsPages(pb, S, D, f1, dst, iNext - 1);
        KeptKeptOn(pb, S, D, old(dst), f1, dst);
        CopiesToPart(env, pb, S, D, old(iNext), iNext - 1);
        if Soft(r) { CutShortOn(pb, S, D, env, src[iNext - 2], old(dst), f1, dst, iNext - 1); }
        ii := ii + 1;
      }
    }

    /** The last part of a finishing step when the source pages are the smaller ones. */
    method FinishSmall(env: Env) returns (r: Io)
      requires Shape() && S < D && CopiedBelow(pb, S, D, src, dst, |src| + 1, missed)
      modifies this`dst
      ensures KeptBelow(pb, D, old(dst), dst, FileSize(S, |src|))
      ensures Shape() && CopiedBelow(pb, S, D, src, dst, |src| + 1, missed)
      ensures r == OK ==> Matches(pb, S, D, src, dst, missed)
      ensures r == OK ==> |dst| == Min(Extended(|old(dst)|, pb, S, D, |src|), FileSize(S, |src|))
      ensures NoSoftCommit(env) ==> !Soft(r)
      ensures CommitBlocked(env) ==> r == env.phaseOne
      ensures CommitOk(env) ==> r == OK
    {
      hide CopiedIn, SameIn, Quot, Rem, Extended, CopiedBelow, KeptBelow, AllSame;
      ghost var f0 := dst;
      KeptStart(pb, D, dst, FileSize(S, |src|));
      TruncateCovers(pb, S, D, |src|);
      r := env.journal;
      if r == OK { r := env.phaseOne; }
      var iSize := FileSize(S, |src|);
      if r == OK { r := WriteExtra(env); }
      if r == OK { r := env.truncate; }
      if r == OK {
        ResizeKeeps(pb, S, D, src, dst, iSize, |src| + 1, missed);
        if |src| !in missed && |src| != PendingPage(pb, S) { LongEnough(pb, S, src, dst, missed); }
        ghost var f1 := dst;
        if |dst| > iSize { dst := Resize(dst, iSize); }
        ResizedKept(pb, D, f1, dst, iSize);
        KeptOn(pb, D, f0, f1, dst, iSize);
        r := env.sync;
      }
    }

    /** Copy the source pages that follow the pending-byte page and lie in the destination's. */
    method WriteExtra(env: Env) returns (r: Io)
      requires Shape() && S < D && CopiedBelow(pb, S, D, src, dst, |src| + 1, missed)
      modifies this`dst
      ensures KeptBelow(pb, D, old(dst), dst, FileSize(S, |src|))
      ensures Shape() && CopiedBelow(pb, S, D, src, dst, |src| + 1, missed)
      ensures r == OK ==> AllSame(pb, S, src, dst, missed) && |dst| == Extended(|old(dst)|, pb, S, D, |src|)
      ensures NoSoftCommit(env) ==> !Soft(r)
      ensures CommitOk(env) ==> r == OK
    {
      hide CopiedBelow, AllSame, SameIn, ExtraSame, CommitOk, NoSoftCommit, KeptBelow, Multiple, Off, PendingPage;
      hide FileSize;
      var iEnd := Min(pb + D, FileSize(S, |src|));
      var iOff := pb + S;
      ghost var q := PendingPage(pb, S) + 1;
      r := OK;
      ExtraStart(pb, S, D);
      NoneExtra(pb, S, src, dst);
      KeptStart(pb, D, dst, FileSize(S, |src|));
      while r == OK && iOff < iEnd
        invariant Shape() && q > PendingPage(pb, S) && iOff == Off(S, q)
        invariant (if pb + S < iEnd then iOff <= iEnd else iOff == pb + S)
        invariant CopiedBelow(pb, S, D, src, dst, |src| + 1, missed)
        invariant r == OK ==> ExtraSame(pb, S, src, dst, q)
        invariant r == OK ==> |dst| == if iOff > pb + S then Max(|old(dst)|, iOff) else |old(dst)|
        invariant CommitOk(env) ==> r == OK
        invariant NoSoftCommit(env) ==> !Soft(r)
        invariant KeptBelow(pb, D, old(dst), dst, FileSize(S, |src|))
        decreases iEnd - iOff
      {
        ghost var f1 := dst;
        ExtraTurn(pb, S, D, |src|, q);
        r := ExtraRound(env, iOff, q);
        KeptOn(pb, D, old(dst), f1, dst, FileSize(S, |src|));
        iOff := iOff + S;
        q := q + 1;
      }
      if r == OK {
        ExtraEnd(pb, S, D, |src|, q);
        SmallPagesAllSame(pb, S, D, src, dst, q, missed);
      }
    }

    /** One round of that loop, for the source page q at offset iOff. */
    method ExtraRound(env: Env, iOff: nat, ghost q: nat) returns (r: Io)
      requires Shape() && S < D && CopiedBelow(pb, S, D, src, dst, |src| + 1, missed)
      requires PendingPage(pb, S) < q <= |src| && iOff == Off(S, q) && iOff < pb + D && ExtraSame(pb, S, src, dst, q)
      modifies this`dst
      ensures KeptBelow(pb, D, old(dst), dst, FileSize(S, |src|))
      ensures Shape() && CopiedBelow(pb, S, D, src, dst, |src| + 1, missed)
      ensures r == OK ==> ExtraSame(pb, S, src, dst, q + 1) && |dst| == Max(|old(dst)|, iOff + S)
      ensures r != OK ==> dst == old(dst)
      ensures CommitOk(env) ==> r == OK
      ensures NoSoftCommit(env) ==> !Soft(r)
    {
      hide CopiedBelow, ExtraSame;
      var block, ignored := Divide(iOff, S);
      OnlyPage(S, iOff, q);
      var iSrcPg := block + 1;
      assert iSrcPg == q;
      r := env.srcGet(iSrcPg);
      if r == OK {
        r := env.osWrite(iOff);
        if r == OK { WriteExtraPage(iSrcPg); }
      }
    }

    /** sqlite3OsWrite of source page q at its own offset. */
    method WriteExtraPage(q: nat)
      requires Shape() && S < D && CopiedBelow(pb, S, D, src, dst, |src| + 1, missed)
      requires PendingPage(pb, S) < q <= |src| && Off(S, q) < pb + D && ExtraSame(pb, S, src, dst, q)
      modifies this`dst
      ensures KeptBelow(pb, D, old(dst), dst, FileSize(S, |src|))
      ensures Shape() && CopiedBelow(pb, S, D, src, dst, |src| + 1, missed)
      ensures ExtraSame(pb, S, src, dst, q + 1) && |dst| == Max(|old(dst)|, Off(S, q) + S)
    {
      PendingOffset(pb, S);
      OffOrder(S, PendingPage(pb, S), q);
      OffMultiple(S, q);
      MultipleIsSmaller(S, D);
      MultiplePlus(pb, D, S);
      MultipleGap(Off(S, q), pb + D, S);
      ExtraStep(pb, S, src, dst, q);
      PendingWriteKeeps(pb, S, D, src, dst, WriteAt(dst, Off(S, q), src[q - 1]), |src| + 1, missed);
      dst := WriteAt(dst, Off(S, q), src[q - 1]);
    }

    /** The last part of a finishing step when the destination pages are not the larger ones. */
    method FinishLarge(env: Env) returns (r: Io)
      requires Shape() && S >= D && CopiedBelow(pb, S, D, src, dst, |src| + 1, missed)
      modifies this`dst
      ensures KeptBelow(pb, D, old(dst), dst, FileSize(S, |src|))
      ensures Shape() && CopiedBelow(pb, S, D, src, dst, |src| + 1, missed)
      ensures r == OK ==> Matches(pb, S, D, src, dst, missed)
      ensures NoSoftCommit(env) ==> !Soft(r)
      ensures dst == Resize(old(dst), FileSize(S, |src|))
      ensures CommitBlocked(env) ==> r == env.phaseOne
      ensures CommitOk(env) ==> r == OK
    {
      TruncateCovers(pb, S, D, |src|);
      OffProduct(S, |src| + 1);
      LargePagesAllSame(pb, S, D, src, dst, missed);
      ResizeKeeps(pb, S, D, src, dst, FileSize(S, |src|), |src| + 1, missed);
      dst := Resize(dst, |src| * (S / D) * D);
      r := env.phaseOne;
    }

    /** What sqlite3_backup_step does once the last page has been copied. */
    method Finish(env: Env) returns (r: RC)
      requires Shape() && iNext > |src| && CopiedBelow(pb, S, D, src, dst, iNext, missed)
      requires forall q :: q in missed ==> q <= |src|
      modifies this`dst
      ensures AllKept(pb, S, D, old(dst), dst, missed)
      ensures Shape() && CopiedBelow(pb, S, D, src, dst, iNext, missed)
      ensures r != OK && (r == DONE ==> Matches(pb, S, D, src, dst, missed))
      ensures NoSoftCommit(env) ==> !Soft(r)
      ensures r == DONE && S >= D ==> dst == Resize(WithHeader(old(dst), env.header), FileSize(S, |src|))
      ensures r == DONE && S < D ==> |dst| == Min(Extended(Max(|old(dst)|, 100), pb, S, D, |src|), FileSize(S, |src|))
      ensures CommitBlocked(env) ==> r == env.phaseOne
      ensures CommitOk(env) ==> r == DONE
    {
      hide CopiedBelow, AllKept, Matches, PendingPage, Resize, Extended, FileSize;
      ghost var f0 := dst;
      NoneBeyond(pb, S, D, src, iNext, missed);
      r := env.meta;
      if r == OK && isWal { r := env.setVersion; }
      if r == OK {
        HeaderKeeps(pb, S, D, src, dst, env.header, |src| + 1, missed);
        dst := WithHeader(dst, env.header);
        if S < D { r := FinishSmall(env); } else { r := FinishLarge(env); }
        if r == OK { r := env.phaseTwo; }
        if r == OK { r := DONE; }
      }
      BelowKeepsPages(pb, S, D, f0, dst, |src|, missed);
    }

    /** The page size of the destination once a step has tried to set it. */
    function NextD(env: Env): nat
      reads this
    {
      if !bDestLocked && env.setPgsz == OK then S else D
    }

    /** The step gets past its checks and locks. */
    predicate Proceeds(env: Env)
      reads this
    {
      && !IsFatal(rc) && !inTransaction && env.beginSrc == OK
      && (bDestLocked || (env.setPgsz != NOMEM && env.beginDest == OK)) && (isWal ==> S == NextD(env))
    }

    /** A step of nPage pages that starts at page i has nothing left to copy, or copies all that is left. */
    static ghost predicate CopiesAll(env: Env, pb: nat, s: nat, d: nat, i: nat, nPage: int, nSrcPage: nat)
      requires s > 0
    {
      i > nSrcPage || (CopiesTo(env, pb, s, d, i, nSrcPage + 1) && (nPage < 0 || i + nPage > nSrcPage))
    }

    /** Such a step copies what it is asked for, and there is more left. */
    static ghost predicate CopiesSome(env: Env, pb: nat, s: nat, d: nat, i: nat, nPage: int, nSrcPage: nat)
      requires s > 0 && i > 0
    {
      var q := NextAfter(i, nPage, nSrcPage);
      q <= nSrcPage && CopiesTo(env, pb, s, d, i, q)
    }

    /** The first part of sqlite3_backup_step: lock both databases and try to give them one page size. */
    method Begin(env: Env) returns (r: Io)
      requires Valid() && !IsFatal(rc)
      modifies this`D, this`bDestLocked
      ensures Valid() && (r == OK <==> old(Proceeds(env))) && (r == OK ==> bDestLocked && D == old(NextD(env)))
      ensures (D == old(D) || D == S) && (old(bDestLocked) ==> bDestLocked && D == old(D))
      ensures inTransaction ==> r == BUSY
      ensures !inTransaction && env.beginSrc != OK ==> r == env.beginSrc
      ensures !inTransaction && env.beginSrc == OK && !old(bDestLocked) ==>
        && (env.setPgsz == NOMEM ==> r == NOMEM)
        && (env.setPgsz != NOMEM && env.beginDest != OK ==> r == env.beginDest)
      ensures !inTransaction && env.beginSrc == OK && bDestLocked ==> r == if isWal && S != D then READONLY else OK
      ensures bDestLocked == (old(bDestLocked)
        || (!inTransaction && env.beginSrc == OK && env.setPgsz != NOMEM && env.beginDest == OK))
      ensures D == if !inTransaction && env.beginSrc == OK && !old(bDestLocked) && env.setPgsz == OK then S else old(D)
    {
      hide CopiedIn;
      r := if inTransaction then BUSY else OK;
      if r == OK { r := env.beginSrc; }
      if !bDestLocked && r == OK {
        if env.setPgsz == OK {
          MultiplePlus(0, S, S);
          D := S;
        } else if env.setPgsz == NOMEM {
          r := NOMEM;
        }
        if r == OK {
          r := env.beginDest;
          if r == OK { bDestLocked := true; }
        }
      }
      if r == OK && isWal && S != D { r := READONLY; }
    }

    /** What a step sees, and what it changes besides rc. */
    ghost function Seen(): (v: View)
      reads this
    {
      View(pb, S, isMemdb, isWal, src, inTransaction, D, dst, bDestLocked, iNext, isAttached, missed,
           nRemaining, nPagecount)
    }

    /** sqlite3_backup_step */
    method Step(nPage: int, env: Env) returns (r: RC)
      requires Valid()
      modifies this
      ensures Valid() && r == rc && src == old(src) && inTransaction == old(inTransaction)
      // After anything but OK, BUSY and LOCKED nothing happens any more.
      ensures old(rc) !in {OK, BUSY, LOCKED} ==> r == old(rc) && Seen() == old(Seen())
      ensures old(rc) in {OK, BUSY, LOCKED} ==> Stepped(env, nPage, old(Seen()), Seen(), r)
    {
      hide Stepped;
      r := rc;
      if IsFatal(r) { return; }
      r := TryStep(nPage, env);
      rc := r;
    }

    /** The part of sqlite3_backup_step that runs unless the backup has ended. */
    method TryStep(nPage: int, env: Env) returns (r: RC)
      requires Valid() && !IsFatal(rc)
      modifies this`D, this`bDestLocked, this`dst, this`iNext, this`missed
      modifies this`nPagecount, this`nRemaining, this`isAttached
      ensures Shape() && Stepped(env, nPage, old(Seen()), Seen(), r)
      ensures !IsFatal(r) ==> (iNext > 1 ==> bDestLocked) && CopiedBelow(pb, S, D, src, dst, iNext, missed)
      ensures !IsFatal(r) ==> forall q :: q in missed ==> 1 <= q < iNext && q <= |src|
    {
      hide CopiedBelow, PageSizes, IsDatabase, Copies;
      r := Begin(env);
      if r == OK {
        r := CopyAndFinish(nPage, env);
      }
    }

    /** The read or copy of page next - 1, at or after page i, reports `r`. */
    static ghost predicate Skips(env: Env, i: nat, next: nat, r: RC) {
      i < next && PageFails(env, next - 1, r)
    }

    /** The part of sqlite3_backup_step that runs once both databases are locked. */
    method CopyAndFinish(nPage: int, env: Env) returns (r: RC)
      requires Valid() && !IsFatal(rc) && bDestLocked
      modifies this`dst, this`iNext, this`missed, this`nPagecount, this`nRemaining, this`isAttached
      ensures Shape() && Sane(old(Seen())) && Sane(Seen()) && Copies(env, nPage, old(Seen()), Seen(), r)
      ensures !IsFatal(r) ==> CopiedBelow(pb, S, D, src, dst, iNext, missed)
      ensures forall q :: q in missed ==> 1 <= q < iNext && q <= |src|
    {
      hide CopiedBelow, AllKept, Matches, PageKept, PendingPage, Resize, WithHeader, KeptBelow, NoSoftCommit;
      hide CutShort, CopiesTo, ReadFails, Extended, FileSize, CommitOk, CommitBlocked, PageFails, NoSoftPage;
      hide PageSizes, IsDatabase, FinalImage;
      hide Ended, Copies;
      ghost var v0 := Seen();
      r := CopyPages(nPage, env);
      ghost var v1, r1 := Seen(), r;
      assert Looped(env, nPage, v0, v1, r1);
      hide Looped;
      if r == OK {
        r := Conclude(env);
      }
      LoopAndEnd(env, nPage, v0, v1, r1, Seen(), r);
    }

    /** What is left to do when no page has failed: count, and attach the backup or finish it. */
    method Conclude(env: Env) returns (r: RC)
      requires Shape() && bDestLocked && CopiedBelow(pb, S, D, src, dst, iNext, missed)
      requires forall q :: q in missed ==> q <= |src|
      modifies this`dst, this`nPagecount, this`nRemaining, this`isAttached
      ensures Shape() && CopiedBelow(pb, S, D, src, dst, iNext, missed)
      ensures Sane(old(Seen())) && Sane(Seen()) && Ended(env, old(Seen()), Seen(), r)
    {
      hide CopiedBelow, AllKept, Matches, Resize, WithHeader, Extended, FileSize, CommitOk, CommitBlocked, NoSoftCommit;
      nPagecount := |src|;
      nRemaining := |src| + 1 - iNext;
      if iNext > |src| {
        r := Finish(env);
      } else {
        KeptAll(pb, S, dst);
        isAttached := true;
        r := OK;
      }
    }

    /** backupUpdate, called after page iPage of the source has been given the content aData. */
    method BackupUpdate(iPage: nat, aData: Page, destIo: nat -> Hard) returns (failed: bool)
      requires Shape() && 1 <= iPage <= |src| && src[iPage - 1] == aData
      requires !IsFatal(rc) ==> CopiedBelow(pb, S, D, src, dst, iNext, missed + {iPage})
      modifies this`dst, this`rc, this`missed
      ensures Shape()
      ensures missed == old(missed) - (if !IsFatal(rc) && iPage < iNext then {iPage} else {})
      ensures AllKept(pb, S, D, old(dst), dst, old(missed) - {iPage})
      ensures IsFatal(old(rc)) ==> !failed && rc == old(rc) && dst == old(dst)
      ensures !IsFatal(rc) ==> CopiedBelow(pb, S, D, src, dst, iNext, missed)
      ensures failed ==> IsFatal(rc) && rc != DONE
      ensures !failed ==> rc == old(rc)
      ensures (forall k: nat :: destIo(k) == OK) && !CopyForbidden() ==> !failed
    {
      failed := false;
      if !IsFatal(rc) && iPage < iNext {
        ghost var f0 := dst;
        var r := BackupOnePage(iPage, aData, true, (i: nat) => destIo(i));
        OutsideKeepsPages(pb, S, D, f0, dst, iPage);
        if r != OK {
          rc := r;
          failed := true;
        } else {
          CopyGains(pb, S, D, src, f0, dst, iPage, CountField(true, |src|), iNext, missed + {iPage});
          assert missed + {iPage} - {iPage} == missed - {iPage};
          missed := missed - {iPage};
        }
      }
    }

    /** Another user of the source writes page iPage, or appends it; an attached backup is told. */
    method SourceWrite(iPage: nat, aData: Page, destIo: nat -> Hard) returns (failed: bool)
      requires Valid() && |aData| == S && 1 <= iPage <= |src| + 1 && iPage != PendingPage(pb, S)
      modifies this`src, this`dst, this`rc, this`missed
      ensures Valid() && src == Written(old(src), iPage, aData)
      ensures isAttached ==> missed == old(missed) - (if !IsFatal(rc) && iPage < iNext then {iPage} else {})
      ensures !isAttached ==>
        missed == old(missed) + (if iPage < iNext then {iPage} else {}) && dst == old(dst) && !failed
      ensures AllKept(pb, S, D, old(dst), dst, old(missed) - (if isAttached then {iPage} else {}))
      ensures old(Tracked()) ==> Tracked()
      ensures IsFatal(old(rc)) ==> !failed && rc == old(rc) && dst == old(dst)
      ensures failed ==> IsFatal(rc) && rc != DONE
      ensures !failed ==> rc == old(rc)
      ensures (forall k: nat :: destIo(k) == OK) && !CopyForbidden() ==> !failed
    {
      ghost var src0 := src;
      src := Written(src, iPage, aData);
      if !IsFatal(rc) { WrittenKeeps(pb, S, D, src0, dst, iPage, aData, iNext, missed); }
      if isAttached {
        failed := BackupUpdate(iPage, aData, destIo);
      } else {
        failed := false;
        if iPage < iNext { missed := missed + {iPage}; }
      }
    }

    /** The source database is truncated to n pages, or grows by its (never written) pending-byte page. */
    method SourceResize(n: nat, filler: Page)
      requires Valid() && |filler| == S && 1 <= n
      requires n <= |src| || (n == |src| + 1 && n == PendingPage(pb, S))
      modifies this`src, this`missed
      ensures missed == set q | q in old(missed) && q <= |src|
      ensures Valid() && src == if n <= |old(src)| then old(src)[..n] else old(src) + [filler]
    {
      ghost var src0 := src;
      src := if n <= |src| then src[..n] else src + [filler];
      forall q: nat | 1 <= q <= |src0| && q <= |src| && CopiedIn(pb, S, D, src0, dst, q)
        ensures CopiedIn(pb, S, D, src, dst, q)
      {
        assert src[q - 1] == src0[q - 1];
      }
      missed := set q | q in missed && q <= |src|;
    }

    /** sqlite3BackupRestart: another process has changed the source; only attached backups are told. */
    method ExternalChange(newSrc: seq<Page>)
      requires Valid() && IsDatabase(S, newSrc)
      modifies this`src, this`iNext, this`missed
      ensures Valid() && src == newSrc
      ensures if isAttached then iNext == 1 && missed == {} else iNext == old(iNext) && missed == CopiedPages()
    {
      src := newSrc;
      if isAttached {
        iNext, missed := 1, {};
      } else {
        missed := CopiedPages();
      }
    }

    /** The pages of the source that count as copied. */
    ghost function CopiedPages(): (pages: set<nat>)
      reads this
      requires iNext > 0
      ensures forall q :: q in pages <==> 1 <= q < iNext && q <= |src|
    {
      PagesTo(if iNext > |src| then |src| else iNext - 1)
    }
  }

  /** The page numbers 1 to n. */
  function PagesTo(n: nat): (pages: set<nat>)
    ensures forall q :: q in pages <==> 1 <= q <= n
  {
    if n == 0 then {} else PagesTo(n - 1) + {n}
  }

  /** The source after page iPage has been written or appended. */
  function Written(src: seq<Page>, iPage: nat, aData: Page): seq<Page>
    requires 1 <= iPage <= |src| + 1
  {
    if iPage == |src| + 1 then src + [aData] else src[iPage - 1 := aData]
  }

  lemma WrittenKeeps(pb: nat, s: nat, d: nat, src: seq<Page>, dst: seq<Byte>, iPage: nat, aData: Page, n: nat,
                     missed: set<nat>)
    requires s > 0 && IsDatabase(s, src) && |aData| == s && 1 <= iPage <= |src| + 1
    requires CopiedBelow(pb, s, d, src, dst, n, missed)
    ensures IsDatabase(s, Written(src, iPage, aData))
    ensures CopiedBelow(pb, s, d, Written(src, iPage, aData), dst, n, missed + {iPage})
  {
    var src' := Written(src, iPage, aData);
    forall q: nat | 1 <= q < n && q <= |src'| && q != PendingPage(pb, s) && q !in missed + {iPage}
      ensures CopiedIn(pb, s, d, src', dst, q)
    {
      assert CopiedIn(pb, s, d, src, dst, q) && src'[q - 1] == src[q - 1];
    }
  }
}
