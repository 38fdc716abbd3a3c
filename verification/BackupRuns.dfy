/**
  Whole runs of an online backup: any interleaving of steps, source writes, growth, truncation, external
  changes and transactions, with any outcome of every pager and file-system call.
 */
module BackupRuns {
  import opened Arith
  import opened Common
  import opened BackupImage
  import opened BackupModule

  datatype Event =
    | StepEv(nPage: int, env: Env)
    | WriteEv(iPage: nat, aData: Page, io: nat -> Hard)
    | ResizeEv(n: nat, filler: Page)
    | ExternalEv(newSrc: seq<Page>)
    | TransactionEv(open: bool)

  /** What a run leaves: the results after each event and, if some step returned DONE, both sides as they were then. */
  datatype Outcome = Outcome(rcs: seq<RC>, updateFailed: bool, done: bool, src: seq<Page>, dst: seq<Byte>)

  ghost predicate NoSoftPages(events: seq<Event>) {
    forall k :: 0 <= k < |events| && events[k].StepEv? ==> NoSoftPage(events[k].env)
  }

  /** Every step that may have returned the BUSY or LOCKED of its commit comes after a step that returned OK. */
  ghost predicate CommitsAfterOk(events: seq<Event>, rcs: seq<RC>) {
    forall k :: 0 <= k < |events| && k < |rcs| && events[k].StepEv? && CommitReports(events[k].env, rcs[k]) ==>
      OkBefore(events, rcs, k)
  }

  /** No page read or copy reports BUSY or LOCKED, and no commit does before the backup is attached. */
  ghost predicate QuietRun(events: seq<Event>, rcs: seq<RC>, attached: bool) {
    NoSoftPages(events) && (attached || CommitsAfterOk(events, rcs))
  }

  ghost predicate QuietStep(env: Env, rc: RC, attached: bool) {
    NoSoftPage(env) && (attached || !CommitReports(env, rc))
  }

  predicate OkBefore(events: seq<Event>, rcs: seq<RC>, k: nat) {
    exists i :: 0 <= i < k && i < |events| && i < |rcs| && events[i].StepEv? && rcs[i] == OK
  }

  /** A later result changes nothing for the steps before it. */
  lemma CommitsBefore(events: seq<Event>, rcs: seq<RC>, r: RC)
    requires CommitsAfterOk(events, rcs + [r])
    ensures CommitsAfterOk(events, rcs)
    ensures |rcs| < |events| && events[|rcs|].StepEv? && CommitReports(events[|rcs|].env, r) ==>
      OkBefore(events, rcs, |rcs|)
  {
    hide CommitReports;
    assert forall k :: 0 <= k < |rcs| ==> (rcs + [r])[k] == rcs[k];
    assert (rcs + [r])[|rcs|] == r;
    forall k: nat | k <= |rcs| && OkBefore(events, rcs + [r], k) ensures OkBefore(events, rcs, k) {
      var i :| 0 <= i < k && i < |events| && events[i].StepEv? && (rcs + [r])[i] == OK;
      assert rcs[i] == OK;
    }
  }

  /**
    The ways to lose page q: its read or copy reports BUSY or LOCKED, or it is changed and the backup is
    not told, which an attached backup always is.
   */
  ghost predicate Loses(e: Event, q: nat, attached: bool) {
    match e
    case StepEv(_, env) => PageFails(env, q, BUSY) || PageFails(env, q, LOCKED)
    case WriteEv(iPage, _, _) => iPage == q && !attached
    case ExternalEv(_) => !attached
    case _ => false
  }

  /** One of the first n events loses page q. */
  ghost predicate LostBy(events: seq<Event>, n: nat, q: nat, attached: bool) {
    exists k :: 0 <= k < n && k < |events| && Loses(events[k], q, attached)
  }

  /** The event changes page q of the source, or drops it. */
  predicate Touches(e: Event, q: nat) {
    match e
    case WriteEv(iPage, _, _) => iPage == q
    case ResizeEv(n, _) => n < q
    case ExternalEv(_) => true
    case _ => false
  }

  predicate Touched(events: seq<Event>, n: nat, q: nat) {
    exists k :: 0 <= k < n && k < |events| && Touches(events[k], q)
  }

  /** Page q of the source is as it was, and the destination holds in its place what it did. */
  ghost predicate Stays(pb: nat, s: nat, d: nat, src0: seq<Page>, dst0: seq<Byte>, src1: seq<Page>, dst1: seq<Byte>,
                        q: nat) {
    1 <= q <= |src0| && q <= |src1| && src1[q - 1] == src0[q - 1] && PageKept(pb, s, d, dst0, dst1, q)
  }

  lemma StaysOn(pb: nat, s: nat, d: nat, src0: seq<Page>, f0: seq<Byte>, src1: seq<Page>, f1: seq<Byte>,
                src2: seq<Page>, f2: seq<Byte>, q: nat)
    requires Stays(pb, s, d, src0, f0, src1, f1, q) && Stays(pb, s, d, src1, f1, src2, f2, q)
    ensures Stays(pb, s, d, src0, f0, src2, f2, q)
  {
    KeptKeptOn(pb, s, d, f0, f1, f2);
  }

  /** What the runs need of a step. */
  lemma StepKeeps(env: Env, nPage: int, v0: View, v1: View, r: RC)
    requires Stepped(env, nPage, v0, v1, r)
    ensures Sane(v0) && Sane(v1) && (v1.pb, v1.S, v1.src) == (v0.pb, v0.S, v0.src)
    ensures r == DONE ==> Matches(v0.pb, v0.S, v1.D, v0.src, v1.dst, v1.missed) && v1.missed == v0.missed
    ensures forall q :: q in v1.missed ==> q in v0.missed || PageFails(env, q, BUSY) || PageFails(env, q, LOCKED)
    ensures v0.missed <= v1.missed && AllKept(v0.pb, v0.S, v1.D, v0.dst, v1.dst, v0.missed)
    ensures (v0.isAttached ==> v1.isAttached) && (r == OK ==> v1.isAttached)
    ensures (v1.D == v0.D || v1.D == v0.S) && (v0.bDestLocked ==> v1.bDestLocked && v1.D == v0.D)
  {
    hide PagesDecide, Matches, PageFails, PageSizes, IsDatabase, CutShort, Counts, PageKept, AllKept, CommitReports;
    hide NoSoftPage, NoSoftCommit;
    KeptAll(v0.pb, v0.S, v0.dst);
  }

  lemma StepTracks(env: Env, nPage: int, v0: View, v1: View, r: RC)
    requires Stepped(env, nPage, v0, v1, r)
    ensures v0.missed == {} && (v0.iNext > 1 ==> v0.isAttached) && !IsFatal(r) && QuietStep(env, r, v0.isAttached) ==>
      v1.missed == {} && (v1.iNext > 1 ==> v1.isAttached)
  {
    hide Stepped, NoSoftPage, CommitReports;
    if v0.missed == {} && (v0.iNext > 1 ==> v0.isAttached) && !IsFatal(r) && QuietStep(env, r, v0.isAttached) {
      StepStaysTracked(env, nPage, v0, v1, r);
    }
  }

  /** The source database allows the change. */
  predicate Allowed(pb: nat, s: nat, src: seq<Page>, e: Event)
    requires s > 0
  {
    match e
    case WriteEv(iPage, aData, _) => |aData| == s && 1 <= iPage <= |src| + 1 && iPage != PendingPage(pb, s)
    case ResizeEv(n, filler) => |filler| == s && 1 <= n && (n <= |src| || n == |src| + 1 == PendingPage(pb, s))
    case ExternalEv(newSrc) => IsDatabase(s, newSrc)
    case _ => true
  }

  function SourceAfter(src: seq<Page>, e: Event): seq<Page>
    requires e.WriteEv? ==> 1 <= e.iPage <= |src| + 1
  {
    match e
    case WriteEv(iPage, aData, _) => Written(src, iPage, aData)
    case ResizeEv(n, filler) => if n <= |src| then src[..n] else src + [filler]
    case ExternalEv(newSrc) => newSrc
    case _ => src
  }

  /** The missed pages after a change that has not failed. */
  function MissedAfter(v: View, e: Event): set<nat>
    requires v.iNext > 0 && (e.WriteEv? ==> 1 <= e.iPage <= |v.src| + 1)
  {
    match e
    case WriteEv(iPage, _, _) =>
      if iPage >= v.iNext then v.missed else if v.isAttached then v.missed - {iPage} else v.missed + {iPage}
    case ResizeEv(n, _) => set q | q in v.missed && q <= |SourceAfter(v.src, e)|
    case ExternalEv(newSrc) =>
      if v.isAttached then {} else PagesTo(if v.iNext > |newSrc| then |newSrc| else v.iNext - 1)
    case _ => v.missed
  }

  /** A change of the source by others; one the source database does not allow in its state is skipped. */
  method Change(b: Backup, e: Event) returns (failed: bool)
    requires b.Valid() && !e.StepEv?
    modifies b
    ensures b.Valid() && (failed ==> IsFatal(b.rc) && b.rc != DONE) && (!failed ==> b.rc == old(b.rc))
    ensures IsFatal(old(b.rc)) ==> !failed && b.dst == old(b.dst)
    ensures b.D == old(b.D) && b.isAttached == old(b.isAttached) && b.bDestLocked == old(b.bDestLocked)
    ensures b.inTransaction == if e.TransactionEv? then e.open else old(b.inTransaction)
    ensures Allowed(b.pb, b.S, old(b.src), e) ==> b.src == SourceAfter(old(b.src), e)
    ensures !Allowed(b.pb, b.S, old(b.src), e) ==>
      b.src == old(b.src) && b.missed == old(b.missed) && b.dst == old(b.dst)
    ensures b.iNext ==
      if e.ExternalEv? && old(b.isAttached) && Allowed(b.pb, b.S, old(b.src), e) then 1 else old(b.iNext)
    ensures Allowed(b.pb, b.S, old(b.src), e) && !IsFatal(b.rc) ==> b.missed == MissedAfter(old(b.Seen()), e)
    ensures forall q :: q in b.missed ==> q in old(b.missed) || Loses(e, q, old(b.isAttached))
    ensures !IsFatal(old(b.rc)) ==> forall q: nat :: q in old(b.missed) && !Touches(e, q) ==>
      q in b.missed && Stays(b.pb, b.S, b.D, old(b.src), old(b.dst), b.src, b.dst, q)
    ensures old(b.Tracked()) ==> b.Tracked()
    ensures failed ==> e.WriteEv? && (b.CopyForbidden() || exists k: nat :: e.io(k) != OK)
  {
    hide Matches, CopiedBelow, PageKept, FileSize, Quot;
    KeptKeptOn(b.pb, b.S, b.D, b.dst, b.dst, b.dst);
    failed := false;
    match e {
      case WriteEv(iPage, aData, io) =>
        var pendingBlock, ignored := Divide(b.pb, b.S);
        if |aData| == b.S && 1 <= iPage <= |b.src| + 1 && iPage != pendingBlock + 1 {
          failed := b.SourceWrite(iPage, aData, io);
        }
      case ResizeEv(n, filler) =>
        var pendingBlock, ignored := Divide(b.pb, b.S);
        if |filler| == b.S && 1 <= n && (n <= |b.src| || (n == |b.src| + 1 && n == pendingBlock + 1)) {
          b.SourceResize(n, filler);
        }
      case ExternalEv(newSrc) =>
        if |newSrc| > 0 && forall q :: 0 <= q < |newSrc| ==> |newSrc[q]| == b.S {
          b.ExternalChange(newSrc);
        }
      case TransactionEv(open) =>
        b.inTransaction := open;
    }
  }

  /** One event of a run; one the source database does not allow in its state is skipped. */
  method Apply(b: Backup, e: Event) returns (failed: bool)
    requires b.Valid()
    modifies b
    ensures b.Valid() && (failed ==> IsFatal(b.rc) && b.rc != DONE)
    ensures IsFatal(old(b.rc)) ==> b.rc == old(b.rc) && b.dst == old(b.dst) && b.D == old(b.D)
    ensures b.rc == DONE && old(b.rc) != DONE ==>
      Matches(b.pb, b.S, b.D, b.src, b.dst, b.missed) && b.missed == old(b.missed)
    ensures forall q :: q in b.missed ==> q in old(b.missed) || Loses(e, q, old(b.isAttached))
    ensures old(b.Tracked()) && !IsFatal(b.rc) && (e.StepEv? ==> QuietStep(e.env, b.rc, old(b.isAttached))) ==>
      b.Tracked()
    ensures (old(b.isAttached) ==> b.isAttached) && (e.StepEv? && b.rc == OK ==> b.isAttached)
    ensures (b.D == old(b.D) || b.D == b.S) && (old(b.bDestLocked) ==> b.bDestLocked && b.D == old(b.D))
    ensures !IsFatal(old(b.rc)) ==> forall q: nat :: q in old(b.missed) && !Touches(e, q) ==>
      q in b.missed && Stays(b.pb, b.S, b.D, old(b.src), old(b.dst), b.src, b.dst, q)
  {
    hide Matches, CopiedBelow, PageKept, NoSoftPage, CommitReports, Stepped, PageFails, FileSize, Quot;
    KeptKeptOn(b.pb, b.S, b.D, b.dst, b.dst, b.dst);
    failed := false;
    match e {
      case StepEv(nPage, env) =>
        ghost var v0, was := b.Seen(), b.rc;
        var r := b.Step(nPage, env);
        if !IsFatal(was) {
          StepKeeps(env, nPage, v0, b.Seen(), r);
          StepTracks(env, nPage, v0, b.Seen(), r);
        }
      case _ =>
        failed := Change(b, e);
    }
  }

  /**
    Run a backup through `events`.  If some step returned DONE, the destination matches the source as it
    was then but for the `missed` pages, and nothing that happens afterwards changes it.  If an update
    failed, no step returns DONE.  Each missed page was missed before or is lost by one of the events; no
    page is, if no page read or copy reports BUSY or LOCKED, and no commit does before a step has returned
    OK.  A page that was missed and that no event touches keeps what the destination had in its place.
   */
  method RunFrom(b: Backup, events: seq<Event>) returns (o: Outcome, ghost missed: set<nat>)
    requires b.Valid() && !IsFatal(b.rc)
    modifies b
    ensures b.Valid() && |o.rcs| == |events| && (o.done <==> b.rc == DONE) && (o.updateFailed ==> !o.done)
    ensures o.done ==> IsDatabase(b.S, o.src) && Matches(b.pb, b.S, b.D, o.src, o.dst, missed) && b.dst == o.dst
    ensures forall q :: q in missed ==> q in old(b.missed) || LostBy(events, |events|, q, old(b.isAttached))
    ensures old(b.Tracked()) && QuietRun(events, o.rcs, old(b.isAttached)) && o.done ==> missed == {}
    ensures (b.D == old(b.D) || b.D == b.S) && (old(b.bDestLocked) ==> b.D == old(b.D))
    ensures forall q: nat :: q in old(b.missed) && !Touched(events, |events|, q) ==>
      q in missed && Stays(b.pb, b.S, b.D, old(b.src), old(b.dst), o.src, o.dst, q)
  {
    hide Matches, CopiedBelow, PageKept, NoSoftPage, NoSoftCommit, PageFails;
    KeptKeptOn(b.pb, b.S, b.D, b.dst, b.dst, b.dst);
    o, missed := Outcome([], false, false, b.src, b.dst), b.missed;
    ghost var before := b.missed;
    for k := 0 to |events|
      invariant b.Valid() && |o.rcs| == k
      invariant (o.done <==> b.rc == DONE) && (o.updateFailed ==> IsFatal(b.rc) && !o.done)
      invariant !IsFatal(b.rc) ==> o.src == b.src && missed == b.missed
      invariant !IsFatal(b.rc) || o.done ==> o.dst == b.dst
      invariant o.done ==> IsDatabase(b.S, o.src) && Matches(b.pb, b.S, b.D, o.src, o.dst, missed)
      invariant forall q :: q in missed ==> q in before || LostBy(events, k, q, old(b.isAttached))
      invariant (old(b.isAttached) ==> b.isAttached) && (OkBefore(events, o.rcs, k) ==> b.isAttached)
      invariant old(b.Tracked()) && QuietRun(events, o.rcs, old(b.isAttached)) ==>
        (!IsFatal(b.rc) ==> b.Tracked()) && (o.done ==> missed == {})
      invariant (b.D == old(b.D) || b.D == b.S) && (old(b.bDestLocked) ==> b.bDestLocked && b.D == old(b.D))
      invariant before != {} ==> old(b.bDestLocked)
      invariant forall q: nat :: q in before && !Touched(events, k, q) ==>
        q in missed && Stays(b.pb, b.S, b.D, old(b.src), old(b.dst), o.src, o.dst, q)
    {
      ghost var rcs, o0 := o.rcs, o;
      var was := b.rc;
      var failed := Apply(b, events[k]);
      o := o.(rcs := o.rcs + [b.rc], updateFailed := o.updateFailed || failed);
      if !IsFatal(was) {
        o, missed := o.(done := b.rc == DONE, src := b.src, dst := b.dst), b.missed;
      }
      if CommitsAfterOk(events, o.rcs) {
        assert o.rcs == rcs + [b.rc];
        CommitsBefore(events, rcs, b.rc);
      }
      assert OkBefore(events, o.rcs, k + 1) ==> OkBefore(events, rcs, k) || (events[k].StepEv? && b.rc == OK);
      forall q: nat | q in before && !Touched(events, k + 1, q)
        ensures q in missed && Stays(b.pb, b.S, b.D, old(b.src), old(b.dst), o.src, o.dst, q)
      {
        assert !Touches(events[k], q) && !Touched(events, k, q);
        if !IsFatal(was) { StaysOn(b.pb, b.S, b.D, old(b.src), old(b.dst), o0.src, o0.dst, o.src, o.dst, q); }
      }
    }
  }

  /** The same from the start of a backup. */
  method Run(pb: nat, S: nat, D: nat, isMemdb: bool, isWal: bool, src0: seq<Page>, dst0: seq<Byte>, events: seq<Event>)
    returns (o: Outcome, d: nat, dst: seq<Byte>, ghost missed: set<nat>)
    requires PageSizes(pb, S, D) && IsDatabase(S, src0)
    ensures |o.rcs| == |events| && (o.updateFailed ==> !o.done) && (d == D || d == S)
    ensures o.done ==> IsDatabase(S, o.src) && Matches(pb, S, d, o.src, o.dst, missed) && dst == o.dst
    ensures forall q :: q in missed ==> LostBy(events, |events|, q, false)
    ensures o.done && QuietRun(events, o.rcs, false) ==> missed == {}
  {
    hide Matches, CopiedBelow, PageKept;
    var b := new Backup(pb, S, D, isMemdb, isWal, src0, dst0);
    o, missed := RunFrom(b, events);
    d, dst := b.D, b.dst;
  }

  // ---------------------------------------------------------------------------------------------
  // When a lost page matches after all

  /**
    A step whose read of page q reports BUSY or LOCKED.  If no later event touches the page, a DONE still
    comes with the bytes the destination had in its place: the page matches if and only if they were the
    right ones already.
   */
  method BusyReadStays(b: Backup, nPage: int, env: Env, q: nat, events: seq<Event>)
    returns (r: RC, o: Outcome, ghost missed: set<nat>)
    requires b.Valid() && b.Proceeds(env) && !(b.isMemdb && b.NextD(env) != b.S)
    requires Soft(env.srcGet(q)) && Backup.ReadFails(env, b.pb, b.S, b.NextD(env), b.iNext, nPage, q, |b.src|)
    modifies b
    ensures r == env.srcGet(q) && (o.done ==> IsDatabase(b.S, o.src) && Matches(b.pb, b.S, b.D, o.src, o.dst, missed))
    ensures !Touched(events, |events|, q) ==>
      q in missed && Stays(b.pb, b.S, b.D, old(b.src), old(b.dst), o.src, o.dst, q)
    ensures !Touched(events, |events|, q) && ClearOfPending(b.pb, b.S, b.D, q) ==>
      (SameBytes(b.S, old(b.src)[q - 1], o.dst, q) <==> SameBytes(b.S, old(b.src)[q - 1], old(b.dst), q))
  {
    hide Matches, CopiedBelow, PageKept, CommitOk, CommitBlocked, NoSoftPage, NoSoftCommit;
    r := b.Step(nPage, env);
    ghost var dst1, d := b.dst, b.D;
    ReadIsNotCut(b.pb, b.S, d, env, old(b.src)[q - 1], old(b.dst), dst1, q);
    o, missed := RunFrom(b, events);
    if !Touched(events, |events|, q) {
      KeptKeptOn(b.pb, b.S, d, old(b.dst), dst1, o.dst);
      if ClearOfPending(b.pb, b.S, b.D, q) { KeptMatches(b.pb, b.S, d, old(b.src)[q - 1], old(b.dst), o.dst, q); }
    }
  }

  lemma ReadIsNotCut(pb: nat, s: nat, d: nat, env: Env, page: Page, f0: seq<Byte>, f1: seq<Byte>, q: nat)
    requires |page| == s && q > 0 && d > 0 && Soft(env.srcGet(q)) && CutShort(pb, s, d, env, page, f0, f1, q)
    ensures PageKept(pb, s, d, f0, f1, q)
  {
    var reach: nat :| Stops(s, d, env, q, reach) && Cut(pb, s, d, page, f0, f1, q, reach);
    CutAtStart(pb, s, d, page, f0, f1, q);
  }

  /**
    A step that loses page q, because its read or its copy reports BUSY or LOCKED: some pieces of the page,
    up to offset `reach`, have been copied.  If no later event touches the page, it matches in the end if and
    only if the destination had the right bytes from there on.
   */
  method BusyCopyStays(b: Backup, nPage: int, env: Env, events: seq<Event>)
    returns (r: RC, q: nat, o: Outcome, ghost lost: bool, ghost reach: nat, ghost missed: set<nat>)
    requires b.Valid() && !IsFatal(b.rc)
    modifies b
    ensures b.Valid() && (old(b.Proceeds(env)) && Soft(r) && NoSoftCommit(env) ==> lost)
    ensures lost ==>
      Soft(r) && old(b.iNext) <= q <= |old(b.src)| && PageFails(env, q, r) && Stops(b.S, b.D, env, q, reach)
    ensures lost && !Touched(events, |events|, q) ==>
      && q in missed && q <= |o.src| && o.src[q - 1] == old(b.src)[q - 1]
      && Cut(b.pb, b.S, b.D, old(b.src)[q - 1], old(b.dst), o.dst, q, reach)
    ensures lost && !Touched(events, |events|, q) && ClearOfPending(b.pb, b.S, b.D, q) ==>
      (SameBytes(b.S, old(b.src)[q - 1], o.dst, q) <==> SameFrom(b.S, old(b.src)[q - 1], old(b.dst), q, reach))
  {
    hide Matches, CopiedBelow, PageKept, CommitOk, CommitBlocked, NoSoftPage, NoSoftCommit, Cut, Stops, PageFails;
    hide PagesDecide, Counts;
    r := b.Step(nPage, env);
    q, o, lost, reach, missed := 0, Outcome([], false, false, [], []), false, 0, {};
    if !Soft(r) || b.iNext < 2 { return; }
    q, lost := b.iNext - 1, b.iNext - 1 in b.missed - old(b.missed);
    ghost var dst1, d, page := b.dst, b.D, if lost then b.src[q - 1] else [];
    if lost {
      reach :| Stops(b.S, d, env, q, reach) && Cut(b.pb, b.S, d, page, old(b.dst), dst1, q, reach);
    }
    o, missed := RunFrom(b, events);
    if lost && !Touched(events, |events|, q) {
      CutOn(b.pb, b.S, d, page, old(b.dst), dst1, o.dst, q, reach);
      if ClearOfPending(b.pb, b.S, b.D, q) { CutMatches(b.pb, b.S, d, page, old(b.dst), o.dst, q, reach); }
    }
  }

  /**
    A change by another process while the backup is not attached.  If no later event touches a copied page, it
    matches in the end if and only if the change left it as it was.
   */
  method UnreportedChangeStays(b: Backup, newSrc: seq<Page>, events: seq<Event>)
    returns (o: Outcome, ghost missed: set<nat>)
    requires b.Valid() && !IsFatal(b.rc) && !b.isAttached && IsDatabase(b.S, newSrc)
    modifies b
    ensures o.done ==> IsDatabase(b.S, o.src) && Matches(b.pb, b.S, b.D, o.src, o.dst, missed)
    ensures forall q: nat :: 1 <= q < old(b.iNext) && q <= |newSrc| && !Touched(events, |events|, q) ==>
      q in missed && q <= |o.src| && o.src[q - 1] == newSrc[q - 1] && PageKept(b.pb, b.S, b.D, old(b.dst), o.dst, q)
    ensures forall q: nat :: q in old(b.CopiedPages() - b.missed) && q <= |newSrc| && !Touched(events, |events|, q) ==>
      ClearOfPending(b.pb, b.S, b.D, q) ==>
        (SameBytes(b.S, newSrc[q - 1], o.dst, q) <==> SameContent(b.S, newSrc[q - 1], old(b.src)[q - 1], q))
  {
    hide Matches, PageKept, CopiedIn, SameBytes, SameContent;
    ghost var src0, f0, d := b.src, b.dst, b.D;
    b.ExternalChange(newSrc);
    o, missed := RunFrom(b, events);
    forall q: nat | q in old(b.CopiedPages()) - old(b.missed) && q <= |newSrc| && !Touched(events, |events|, q)
      && ClearOfPending(b.pb, b.S, d, q)
      ensures SameBytes(b.S, newSrc[q - 1], o.dst, q) <==> SameContent(b.S, newSrc[q - 1], src0[q - 1], q)
    {
      ClearIsNotPending(b.pb, b.S, d, q);
      assert Stays(b.pb, b.S, b.D, newSrc, f0, o.src, o.dst, q);
      StaleMatches(b.pb, b.S, d, src0, newSrc[q - 1], f0, o.dst, q);
    }
  }

  lemma ClearIsNotPending(pb: nat, s: nat, d: nat, q: nat)
    requires PageSizes(pb, s, d) && q > 0 && ClearOfPending(pb, s, d, q)
    ensures q != PendingPage(pb, s)
  {
    PendingOffset(pb, s);
  }

  lemma StaleMatches(pb: nat, s: nat, d: nat, src0: seq<Page>, page: Page, f0: seq<Byte>, f1: seq<Byte>, q: nat)
    requires s >= 512 && IsDatabase(s, src0) && 1 <= q <= |src0| && |page| == s && ClearOfPending(pb, s, d, q)
    requires CopiedIn(pb, s, d, src0, f0, q) && PageKept(pb, s, d, f0, f1, q)
    ensures SameBytes(s, page, f1, q) <==> SameContent(s, page, src0[q - 1], q)
  {
    KeptMatches(pb, s, d, page, f0, f1, q);
    CopiedSameBytes(pb, s, d, src0[q - 1], page, f0, q);
  }

  /**
    A write of a copied page while the backup is not attached.  If no later event touches the page, it
    matches in the end if and only if the write did not change it.
   */
  method UnreportedWriteStays(b: Backup, q: nat, aData: Page, io: nat -> Hard, events: seq<Event>)
    returns (o: Outcome, ghost missed: set<nat>)
    requires b.Valid() && !IsFatal(b.rc) && !b.isAttached && 1 <= q < b.iNext && q <= |b.src|
    requires |aData| == b.S && q != PendingPage(b.pb, b.S) && q !in b.missed
    modifies b
    ensures o.done ==> IsDatabase(b.S, o.src) && Matches(b.pb, b.S, b.D, o.src, o.dst, missed)
    ensures !Touched(events, |events|, q) ==>
      q in missed && q <= |o.src| && o.src[q - 1] == aData && PageKept(b.pb, b.S, b.D, old(b.dst), o.dst, q)
    ensures !Touched(events, |events|, q) && ClearOfPending(b.pb, b.S, b.D, q) ==>
      (SameBytes(b.S, aData, o.dst, q) <==> SameContent(b.S, aData, old(b.src)[q - 1], q))
  {
    hide Matches, PageKept;
    assert CopiedIn(b.pb, b.S, b.D, b.src, b.dst, q);
    var failed := b.SourceWrite(q, aData, io);
    o, missed := RunFrom(b, events);
    if !Touched(events, |events|, q) && ClearOfPending(b.pb, b.S, b.D, q) {
      StaleMatches(b.pb, b.S, b.D, old(b.src), aData, old(b.dst), o.dst, q);
    }
  }

  /** Every call succeeds, except for the read of source page `busy` and the first phase of the commit. */
  function AllOkBut(busy: int, phaseOne: Io): Env {
    Env(OK, OK, OK, (i: nat) => if i == busy then BUSY else OK, (i: nat) => OK,
        OK, OK, OK, phaseOne, (i: nat) => OK, OK, OK, OK, seq(100, _ => 0))
  }

  /** A source of one 512-byte page that is not the pending-byte page, and an empty destination. */
  method OnePage(fill: Byte) returns (b: Backup)
    ensures fresh(b) && b.Valid() && b.S == b.D == 512 && b.src == [seq(512, _ => fill)] && b.dst == []
    ensures b.rc == OK && b.iNext == 1 && !b.isAttached && !b.isMemdb && !b.isWal && !b.inTransaction && b.missed == {}
    ensures ClearOfPending(b.pb, 512, 512, 1) && PendingPage(b.pb, 512) != 1
  {
    assert PageSizes(0x4000_0000, 512, 512) by { PowersOfTwoFit(9, 9); Pow2Values(); }
    b := new Backup(0x4000_0000, 512, 512, false, false, [seq(512, _ => fill)], []);
    PendingOffset(b.pb, b.S);
  }

  /**
    A first failing run: the copy loop advances iNext past a page whose read reported BUSY, so one source
    page of ones is never copied, and the next step, in which every call succeeds, returns DONE with
    zeros in its place.
   */
  method BusyPageIsSkipped() returns (r: RC, src: seq<Page>, dst: seq<Byte>)
    ensures r == DONE && |src| == 1 && |src[0]| == 512 && |dst| == 512
    ensures src[0][511] == 1 && dst[511] == 0
  {
    var b := OnePage(1);
    assert Backup.ReadFails(AllOkBut(1, OK), b.pb, b.S, b.D, b.iNext, -1, 1, |b.src|);
    r := b.Step(-1, AllOkBut(1, OK));
    assert r == BUSY;
    ReadIsNotCut(b.pb, b.S, b.D, AllOkBut(1, OK), b.src[0], [], b.dst, 1);
    src, dst := b.src, b.dst;
    assert At(dst, 511) == At([], 511);
    r := b.Step(-1, AllOkBut(-1, OK));
    dst := b.dst;
    assert At(dst, 511) == 0;
  }

  /** A first step that copies everything, so it does not attach the backup, and whose commit reports BUSY. */
  method CommitIsBusy() returns (b: Backup)
    ensures fresh(b) && b.Valid() && b.S == b.D == 512 && |b.src| == 1 && !b.isMemdb && !b.isWal && !b.inTransaction
    ensures b.rc == BUSY && b.iNext == 2 && !b.isAttached && b.bDestLocked && b.missed == {}
    ensures PendingPage(b.pb, 512) != 1 && !InPending(b.pb, 512, 511) && At(b.dst, 511) == 1
  {
    hide CutShort, FinalImage, NoSoftPage, NoSoftCommit, Backup.ReadFails, Backup.CopiesSome, Backup.Skips, PageFails;
    b := OnePage(1);
    var r := b.Step(-1, AllOkBut(-1, BUSY));
    assert CopiedIn(b.pb, 512, 512, b.src, b.dst, 1) && !InPending(b.pb, 512, 511);
    assert Holds(b.dst, b.src[0], 0, 511);
  }

  /**
    A second one: after such a step the source page of ones is overwritten with twos, which is not reported,
    and the next step returns DONE with the ones.
   */
  method BusyCommitGoesStale() returns (r: RC, src: seq<Page>, dst: seq<Byte>)
    ensures r == DONE && |src| == 1 && |src[0]| == 512 && |dst| == 512
    ensures src[0][511] == 2 && dst[511] == 1
  {
    hide CutShort, FinalImage, NoSoftPage, NoSoftCommit, Backup.ReadFails, Backup.CopiesSome, Backup.Skips, PageFails;
    var b := CommitIsBusy();
    var failed := b.SourceWrite(1, seq(512, _ => 2), (i: nat) => OK);
    src := b.src;
    r := b.Step(-1, AllOkBut(-1, OK));
    dst := b.dst;
    assert At(dst, 511) == 1;
  }
}
