/**
  A backup whose steps meet an open write transaction on the source: they report BUSY, change nothing, and
  the backup comes to the same end as it would have without them.
 */
module BackupRetry {
  import opened Arith
  import opened Common
  import opened BackupImage
  import opened BackupModule
  import opened BackupRuns

  /** The two differ at most in their images and in what their last steps have counted. */
  predicate Same(v1: View, v2: View) {
    v2 == v1.(dst := v2.dst, nRemaining := v2.nRemaining, nPagecount := v2.nPagecount)
  }

  /** Two backups of one source have come equally far. */
  ghost predicate Alike(v1: View, rc1: RC, v2: View, rc2: RC) {
    && Same(v1, v2) && !v1.isMemdb
    && (rc1 == rc2 || (rc1 in {OK, BUSY, LOCKED} && rc2 in {OK, BUSY, LOCKED}))
  }

  /** Every call for a destination page succeeds, and the commit succeeds or is blocked in its first phase. */
  ghost predicate Decided(env: Env) {
    (forall k: nat :: env.destIo(k) == OK) && (CommitOk(env) || CommitBlocked(env))
  }

  /** Either all the pages of a step are copied, or there is a first one that cannot be read. */
  lemma {:induction false} FirstFailure(env: Env, pb: nat, s: nat, d: nat, i: nat, nPage: int, q: nat, nSrcPage: nat)
    requires s > 0 && 1 <= i <= q <= nSrcPage + 1 && (nPage < 0 || q - i <= nPage)
    requires forall k: nat :: env.destIo(k) == OK
    ensures Backup.CopiesTo(env, pb, s, d, i, q)
      || exists p: nat :: Backup.ReadFails(env, pb, s, d, i, nPage, p, nSrcPage)
    decreases q
  {
    if q > i {
      FirstFailure(env, pb, s, d, i, nPage, q - 1, nSrcPage);
      if Backup.CopiesTo(env, pb, s, d, i, q - 1) && !Backup.CopiesTo(env, pb, s, d, i, q) {
        assert Backup.ReadFails(env, pb, s, d, i, nPage, q - 1, nSrcPage);
      }
    }
  }

  /** The images of both match the source, but for the same pages. */
  ghost predicate BothMatch(v1: View, v2: View) {
    && Sane(v1) && Matches(v1.pb, v1.S, v1.D, v1.src, v1.dst, v1.missed)
    && Matches(v1.pb, v1.S, v1.D, v1.src, v2.dst, v1.missed)
  }

  /** The copying of one step of each, with the same answers: both come equally far with the same result. */
  lemma CopiesAlike(env: Env, nPage: int, v1: View, w1: View, r1: RC, v2: View, w2: View, r2: RC)
    requires Sane(v1) && Sane(v2) && Sane(w1) && Sane(w2) && Decided(env) && Same(v1, v2) && !v1.isMemdb
    requires Copies(env, nPage, v1, w1, r1) && Copies(env, nPage, v2, w2, r2)
    ensures r1 == r2 && w1.iNext == w2.iNext && w1.missed == w2.missed
  {
    hide Matches, IsDatabase, CommitOk, CommitBlocked, FinalImage, AllKept, CutShort, FileSize, Quot, NoSoftCommit;
    hide Backup.ReadFails, Backup.CopiesTo, Backup.Skips;
    var pb, s, d, i, n, q := v1.pb, v1.S, v1.D, v1.iNext, |v1.src|, Backup.NextAfter(v1.iNext, nPage, |v1.src|);
    if i <= n { FirstFailure(env, pb, s, d, i, nPage, q, n); }
    if p: nat :| Backup.ReadFails(env, pb, s, d, i, nPage, p, n) {
      assert r1 == env.srcGet(p) == r2;
    } else if q <= n {
      assert Backup.CopiesSome(env, pb, s, d, i, nPage, n);
    } else {
      assert Backup.CopiesAll(env, pb, s, d, i, nPage, n);
    }
  }

  /** One step of each, with the same answers: the result is the same, and they go on alike. */
  lemma StepsAlike(env: Env, nPage: int, v1: View, w1: View, r1: RC, v2: View, w2: View, r2: RC)
    requires Stepped(env, nPage, v1, w1, r1) && Stepped(env, nPage, v2, w2, r2) && Decided(env)
    requires Same(v1, v2) && !v1.isMemdb
    ensures Same(w1, w2) && !w1.isMemdb && r1 == r2 && (r1 == DONE ==> BothMatch(w1, w2))
  {
    hide Matches, PageSizes, IsDatabase, Decided, MissedBy, PagesDecide, Counts;
    if Passes(env, v1, w1) {
      var v1', v2' := v1.(bDestLocked := w1.bDestLocked, D := w1.D), v2.(bDestLocked := w2.bDestLocked, D := w2.D);
      CopiesAlike(env, nPage, v1', w1, r1, v2', w2, r2);
    }
  }

  /** The same change of the source of each, with updates that succeed. */
  method BothChange(b1: Backup, b2: Backup, e: Event)
    requires b1 != b2 && b1.Valid() && b2.Valid() && Alike(b1.Seen(), b1.rc, b2.Seen(), b2.rc) && !IsFatal(b1.rc)
    requires !e.StepEv? && (e.WriteEv? ==> forall i: nat :: e.io(i) == OK)
    modifies b1, b2
    ensures b1.Valid() && b2.Valid() && Alike(b1.Seen(), b1.rc, b2.Seen(), b2.rc) && !IsFatal(b1.rc)
  {
    hide CopiedBelow, PageSizes, Loses, Touches, Stays, Allowed;
    var failed1 := Change(b1, e);
    var failed2 := Change(b2, e);
  }

  /**
    Two backups of one source that have come equally far: the first tries every step, the second none that
    would meet an open transaction.  The first one's extra steps report BUSY; both end at the same event with
    the same result, and if that is DONE, both images match the source but for the same pages.
   */
  method Retry(b1: Backup, b2: Backup, events: seq<Event>) returns (k: nat)
    requires b1 != b2 && b1.Valid() && b2.Valid() && Alike(b1.Seen(), b1.rc, b2.Seen(), b2.rc) && !IsFatal(b1.rc)
    requires forall j :: 0 <= j < |events| && events[j].StepEv? ==> Decided(events[j].env)
    requires forall j, i: nat :: 0 <= j < |events| && events[j].WriteEv? ==> events[j].io(i) == OK
    modifies b1, b2
    ensures b1.Valid() && b2.Valid() && Alike(b1.Seen(), b1.rc, b2.Seen(), b2.rc)
    ensures k <= |events| && (k < |events| ==> b1.rc !in {OK, BUSY, LOCKED} && b2.rc == b1.rc)
    ensures b1.rc == DONE || b2.rc == DONE ==> b1.rc == b2.rc && BothMatch(b1.Seen(), b2.Seen())
  {
    hide BothMatch, Stepped, Decided;
    k := 0;
    while k < |events| && !IsFatal(b1.rc)
      invariant k <= |events| && b1.Valid() && b2.Valid() && Alike(b1.Seen(), b1.rc, b2.Seen(), b2.rc)
      invariant b1.rc == DONE ==> BothMatch(b1.Seen(), b2.Seen())
    {
      var e := events[k];
      if e.StepEv? {
        ghost var v1, v2 := b1.Seen(), b2.Seen();
        var r1 := b1.Step(e.nPage, e.env);
        if b1.inTransaction {
          BlockedStep(e.env, e.nPage, v1, b1.Seen(), r1);
        } else {
          var r2 := b2.Step(e.nPage, e.env);
          StepsAlike(e.env, e.nPage, v1, b1.Seen(), r1, v2, b2.Seen(), r2);
        }
      } else {
        BothChange(b1, b2, e);
      }
      k := k + 1;
    }
  }

  /** A step that meets an open transaction reports BUSY and changes nothing. */
  lemma BlockedStep(env: Env, nPage: int, v0: View, v1: View, r: RC)
    requires Stepped(env, nPage, v0, v1, r) && v0.inTransaction
    ensures r == BUSY && v1 == v0
  {
  }
}
