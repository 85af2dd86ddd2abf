/** File leases in the serial model: a deadline stored in the inode, taken by put,
    renewed by update_lock, given back by put_ok and rm. */
module Lease {
  import opened Results
  import opened Inodes
  import opened Metadata
  import opened Projection
  import opened Namespace
  import StorageText

  /** The namenode's clock never goes back. */
  ghost predicate Clocked(evs: seq<Event>) {
    forall i, j | 0 <= i <= j < |evs| :: evs[i].now <= evs[j].now
  }

  function Clock(evs: seq<Event>): nat {
    if evs == [] then 0 else evs[|evs| - 1].now
  }

  predicate IsFile(s: Store, p: Path) {
    GetInode(s, p).valid && !GetInode(s, p).isDirectory
  }

  function Deadline(s: Store, p: Path): nat { GetInode(s, p).ddlLock }

  /** The request gives the lease on `p` back. */
  predicate Releases(req: Request, p: Path) {
    (req.PutOkReq? || req.RmReq?) && req.path == p
  }

  /** The request takes or renews the lease on `p`. */
  predicate Takes(req: Request, p: Path) {
    (req.PutReq? || req.UpdateLockReq?) && req.path == p
  }

  // ----- one step -----

  /** A put on an existing file is accepted exactly when its lease has run out and the storage type is good. */
  lemma {:induction false} PutAcceptedIff(s: Store, p: Path, text: string, now: nat)
    requires IsFile(s, p)
    ensures Accepted(s, Event(now, PutReq(p, text))) <==> Deadline(s, p) < now && StorageText.FromString(text).Ok?
  {
  }

  lemma {:induction false} StepBounds(s: Store, ev: Event, clock: nat, p: Path)
    requires Keyed(s) && Serve(s, ev).Some? && Deadline(s, p) <= clock + 60 && clock <= ev.now
    ensures Deadline(Serve(s, ev).value, p) <= ev.now + 60
  {
    if Accepted(s, ev) {
      PreparedPath(s, ev.req, ev.now);
      ApplyProjects(s, Prepare(s, ev.req, ev.now).value, p);
    }
  }

  lemma {:induction false} StepExtends(s: Store, ev: Event, p: Path)
    requires Keyed(s) && Serve(s, ev).Some? && IsFile(s, p) && Deadline(s, p) <= ev.now + 60
    requires Accepted(s, ev) ==> !Releases(ev.req, p)
    ensures IsFile(Serve(s, ev).value, p) && Deadline(Serve(s, ev).value, p) >= Deadline(s, p)
    ensures Accepted(s, ev) && Takes(ev.req, p) ==> Deadline(Serve(s, ev).value, p) == ev.now + 60
  {
    if Accepted(s, ev) {
      PreparedPath(s, ev.req, ev.now);
      ApplyProjects(s, Prepare(s, ev.req, ev.now).value, p);
    }
  }

  // ----- whole runs -----

  lemma {:induction false} ClockedPrefix(evs: seq<Event>)
    requires Clocked(evs) && evs != []
    ensures Clocked(evs[..|evs| - 1]) && Clock(evs[..|evs| - 1]) <= Clock(evs)
  {
  }

  /** No stored deadline lies more than one interval ahead of the clock. */
  lemma {:induction false} DeadlinesAreBounded(evs: seq<Event>, p: Path)
    requires Clocked(evs) && After(evs).Some?
    ensures Deadline(After(evs).value.store, p) <= Clock(evs) + 60
  {
    if evs != [] {
      var init := evs[..|evs| - 1];
      ClockedPrefix(evs);
      DeadlinesAreBounded(init, p);
      AfterIsKeyed(init);
      StepBounds(After(init).value.store, evs[|evs| - 1], Clock(init), p);
    }
  }

  /** Event `j` does not give the lease back. */
  predicate KeptAt(evs: seq<Event>, j: nat, p: Path)
    requires j < |evs|
  {
    After(evs[..j]).Some? && Releases(evs[j].req, p) ==> !Accepted(After(evs[..j]).value.store, evs[j])
  }

  /** From position `i` on, no accepted request gives the lease back. */
  ghost predicate Held(evs: seq<Event>, i: nat, p: Path) {
    forall j | i <= j < |evs| :: KeptAt(evs, j, p)
  }

  lemma {:induction false} HeldInPrefix(evs: seq<Event>, i: nat, n: nat, p: Path)
    requires Held(evs, i, p) && n <= |evs|
    ensures Held(evs[..n], i, p)
  {
    var run := evs[..n];
    forall j | i <= j < n ensures KeptAt(run, j, p) {
      assert KeptAt(evs, j, p);
      assert run[..j] == evs[..j] && run[j] == evs[j];
    }
  }

  /** The deadline of a held lease never moves back. */
  lemma {:induction false} DeadlineNeverShortens(evs: seq<Event>, i: nat, p: Path)
    requires Clocked(evs) && After(evs).Some? && i <= |evs| && After(evs[..i]).Some?
    requires IsFile(After(evs[..i]).value.store, p) && Held(evs, i, p)
    ensures IsFile(After(evs).value.store, p)
    ensures Deadline(After(evs).value.store, p) >= Deadline(After(evs[..i]).value.store, p)
  {
    if i == |evs| {
      assert evs[..i] == evs;
    } else {
      var init := evs[..|evs| - 1];
      ClockedPrefix(evs);
      assert init[..i] == evs[..i];
      HeldInPrefix(evs, i, |init|, p);
      assert KeptAt(evs, |init|, p);
      DeadlineNeverShortens(init, i, p);
      AfterIsKeyed(init);
      DeadlinesAreBounded(init, p);
      StepExtends(After(init).value.store, evs[|evs| - 1], p);
    }
  }

  lemma {:induction false} PrefixAfter(evs: seq<Event>, i: nat)
    requires After(evs).Some? && i <= |evs|
    ensures After(evs[..i]).Some?
  {
    if i == |evs| {
      assert evs[..i] == evs;
    } else {
      assert evs[..|evs| - 1][..i] == evs[..i];
      PrefixAfter(evs[..|evs| - 1], i);
    }
  }

  /** The event at `i` took or renewed the lease on the file `p`. */
  ghost predicate TakenAt(evs: seq<Event>, i: nat, p: Path) {
    && i < |evs| && Takes(evs[i].req, p)
    && After(evs[..i]).Some? && Accepted(After(evs[..i]).value.store, evs[i])
    && After(evs[..i + 1]).Some? && IsFile(After(evs[..i + 1]).value.store, p)
  }

  lemma {:induction false} TakenSetsDeadline(evs: seq<Event>, i: nat, p: Path)
    requires Clocked(evs) && TakenAt(evs, i, p)
    ensures Deadline(After(evs[..i + 1]).value.store, p) == evs[i].now + 60
  {
    assert evs[..i + 1][..i] == evs[..i];
    AfterIsKeyed(evs[..i]);
    var s := After(evs[..i]).value.store;
    PreparedPath(s, evs[i].req, evs[i].now);
    ApplyProjects(s, Prepare(s, evs[i].req, evs[i].now).value, p);
  }

  /** Once taken at time t and not given back, the lease rejects every put up to t + 60. */
  lemma {:induction false} LeaseExcludes(evs: seq<Event>, i: nat, p: Path, text: string, now: nat)
    requires Clocked(evs) && After(evs).Some? && TakenAt(evs, i, p) && Held(evs, i + 1, p)
    requires now <= evs[i].now + 60
    ensures !Accepted(After(evs).value.store, Event(now, PutReq(p, text)))
  {
    TakenSetsDeadline(evs, i, p);
    DeadlineNeverShortens(evs, i + 1, p);
    PutAcceptedIff(After(evs).value.store, p, text, now);
  }

  lemma {:induction false} TakenInPrefix(evs: seq<Event>, i: nat, n: nat, p: Path)
    requires TakenAt(evs, i, p) && i < n <= |evs|
    ensures TakenAt(evs[..n], i, p)
  {
    assert evs[..n][..i] == evs[..i] && evs[..n][..i + 1] == evs[..i + 1];
  }

  /** Some request from `i` on took or renewed the lease at most one interval before event `j`. */
  ghost predicate RenewedBefore(evs: seq<Event>, i: nat, j: nat, p: Path)
    requires i < j < |evs|
  {
    exists r | i <= r < j :: (r == i || evs[r].req == UpdateLockReq(p)) && evs[j].now <= evs[r].now + 60
  }

  /** Renewing at gaps of at most one interval keeps every other put out for the whole run. */
  lemma {:induction false} RenewalsHoldTheLease(evs: seq<Event>, i: nat, p: Path, j: nat)
    requires Clocked(evs) && After(evs).Some? && TakenAt(evs, i, p) && Held(evs, i + 1, p)
    requires i < j < |evs| && RenewedBefore(evs, i, j, p) && evs[j].req.PutReq? && evs[j].req.path == p
    ensures After(evs[..j]).Some? && !Accepted(After(evs[..j]).value.store, evs[j])
  {
    var r :| i <= r < j && (r == i || evs[r].req == UpdateLockReq(p)) && evs[j].now <= evs[r].now + 60;
    TakenAgain(evs, i, r, p);
    ExcludedAt(evs, r, j, p);
  }

  lemma {:induction false} TakenAgain(evs: seq<Event>, i: nat, r: nat, p: Path)
    requires Clocked(evs) && After(evs).Some? && TakenAt(evs, i, p) && Held(evs, i + 1, p)
    requires i <= r < |evs| && (r == i || evs[r].req == UpdateLockReq(p))
    ensures TakenAt(evs, r, p) && Held(evs, r + 1, p)
  {
    HeldLater(evs, i + 1, r + 1, p);
    if r != i {
      RenewalIsTaken(evs, i + 1, r, p);
    }
  }

  lemma {:induction false} ExcludedAt(evs: seq<Event>, r: nat, j: nat, p: Path)
    requires Clocked(evs) && After(evs).Some? && TakenAt(evs, r, p) && Held(evs, r + 1, p)
    requires r < j < |evs| && evs[j].req.PutReq? && evs[j].req.path == p && evs[j].now <= evs[r].now + 60
    ensures After(evs[..j]).Some? && !Accepted(After(evs[..j]).value.store, evs[j])
  {
    var run := evs[..j];
    assert After(run).Some? by { PrefixAfter(evs, j); }
    assert Held(run, r + 1, p) by { HeldInPrefix(evs, r + 1, j, p); }
    assert TakenAt(run, r, p) by { TakenInPrefix(evs, r, j, p); }
    assert evs[j] == Event(evs[j].now, PutReq(p, evs[j].req.storageText));
    LeaseExcludes(run, r, p, evs[j].req.storageText, evs[j].now);
  }

  lemma {:induction false} HeldLater(evs: seq<Event>, i: nat, j: nat, p: Path)
    requires Held(evs, i, p) && i <= j
    ensures Held(evs, j, p)
  {
  }

  lemma {:induction false} RenewalIsTaken(evs: seq<Event>, i: nat, r: nat, p: Path)
    requires Clocked(evs) && After(evs).Some? && Held(evs, i, p)
    requires i <= r < |evs| && After(evs[..i]).Some? && IsFile(After(evs[..i]).value.store, p)
    requires evs[r].req == UpdateLockReq(p)
    ensures TakenAt(evs, r, p)
  {
    assert After(evs[..r + 1]).Some? by { PrefixAfter(evs, r + 1); }
    FileWhileHeld(evs, i, r, p);
    RenewalOfFile(evs, r, p);
  }

  lemma {:induction false} FileWhileHeld(evs: seq<Event>, i: nat, r: nat, p: Path)
    requires Clocked(evs) && After(evs).Some? && i <= r <= |evs| && Held(evs, i, p)
    requires After(evs[..i]).Some? && IsFile(After(evs[..i]).value.store, p)
    ensures After(evs[..r]).Some? && IsFile(After(evs[..r]).value.store, p)
  {
    PrefixAfter(evs, r);
    HeldInPrefix(evs, i, r, p);
    var run := evs[..r];
    assert run[..i] == evs[..i];
    assert Clocked(run);
    DeadlineNeverShortens(run, i, p);
  }

  lemma {:induction false} RenewalOfFile(evs: seq<Event>, r: nat, p: Path)
    requires r < |evs| && evs[r].req == UpdateLockReq(p) && After(evs[..r + 1]).Some?
    requires After(evs[..r]).Some? && IsFile(After(evs[..r]).value.store, p)
    ensures TakenAt(evs, r, p)
  {
    var run := evs[..r + 1];
    assert run[..|run| - 1] == evs[..r];
    AfterIsKeyed(evs[..r]);
    assert evs[r] == Event(evs[r].now, UpdateLockReq(p));
    RenewalAccepted(After(evs[..r]).value.store, p, evs[r].now);
    assert After(run).value.store == Serve(After(evs[..r]).value.store, evs[r]).value;
  }

  lemma {:induction false} RenewalAccepted(s: Store, p: Path, now: nat)
    requires IsFile(s, p)
    ensures Accepted(s, Event(now, UpdateLockReq(p))) && Serve(s, Event(now, UpdateLockReq(p))).Some?
    ensures GetInode(s, p).path == p ==> IsFile(Serve(s, Event(now, UpdateLockReq(p))).value, p)
  {
  }

  // ----- exactly when a put gets through -----

  /** The accepted request at `j` took or renewed the lease on `p`, and nothing gave it back since. */
  ghost predicate LeasedAt(evs: seq<Event>, j: nat, p: Path) {
    && j < |evs| && Takes(evs[j].req, p)
    && After(evs[..j]).Some? && Accepted(After(evs[..j]).value.store, evs[j])
    && Held(evs, j + 1, p)
  }

  lemma {:induction false} LeasedLater(evs: seq<Event>, j: nat, p: Path)
    requires evs != [] && LeasedAt(evs[..|evs| - 1], j, p) && KeptAt(evs, |evs| - 1, p)
    ensures LeasedAt(evs, j, p)
  {
    var init := evs[..|evs| - 1];
    assert init[..j] == evs[..j] && init[j] == evs[j];
    HeldSnoc(evs, j + 1, p);
  }

  lemma {:induction false} HeldSnoc(evs: seq<Event>, i: nat, p: Path)
    requires evs != [] && Held(evs[..|evs| - 1], i, p) && KeptAt(evs, |evs| - 1, p)
    ensures Held(evs, i, p)
  {
    var init := evs[..|evs| - 1];
    forall k | i <= k < |evs| ensures KeptAt(evs, k, p) {
      if k < |init| {
        assert KeptAt(init, k, p);
        assert init[..k] == evs[..k] && init[k] == evs[k];
      }
    }
  }

  /** What one request does to a deadline: it takes the lease, gives it back, or leaves it. */
  lemma {:induction false} StepDeadline(s: Store, ev: Event, p: Path)
    requires Keyed(s) && Serve(s, ev).Some?
    ensures var t := Serve(s, ev).value;
            || Deadline(t, p) == 0
            || (Accepted(s, ev) && Takes(ev.req, p) && Deadline(t, p) == ev.now + 60)
            || (!(Accepted(s, ev) && Releases(ev.req, p)) && Deadline(t, p) == Deadline(s, p))
  {
    if Accepted(s, ev) {
      PreparedPath(s, ev.req, ev.now);
      ApplyProjects(s, Prepare(s, ev.req, ev.now).value, p);
    }
  }

  /** Every stored deadline is that of a lease that was taken and not given back. */
  lemma {:induction false} DeadlineIsLeased(evs: seq<Event>, p: Path)
    requires After(evs).Some?
    ensures Deadline(After(evs).value.store, p) == 0 ||
            exists j: nat | LeasedAt(evs, j, p) :: Deadline(After(evs).value.store, p) == evs[j].now + 60
  {
    if evs != [] {
      var init, ev := evs[..|evs| - 1], evs[|evs| - 1];
      DeadlineIsLeased(init, p);
      AfterIsKeyed(init);
      var s := After(init).value.store;
      StepDeadline(s, ev, p);
      if Deadline(After(evs).value.store, p) != 0 {
        if Accepted(s, ev) && Takes(ev.req, p) {
          assert LeasedAt(evs, |init|, p);
        } else {
          var j: nat :| LeasedAt(init, j, p) && Deadline(s, p) == init[j].now + 60;
          LeasedLater(evs, j, p);
        }
      }
    }
  }

  /** The accepted request at `j` is a put on `p`. */
  predicate PutAt(evs: seq<Event>, j: nat, p: Path) {
    && j < |evs| && evs[j].req.PutReq? && evs[j].req.path == p
    && After(evs[..j]).Some? && Accepted(After(evs[..j]).value.store, evs[j])
  }

  lemma {:induction false} PutAtLater(evs: seq<Event>, j: nat, p: Path)
    requires evs != [] && PutAt(evs[..|evs| - 1], j, p)
    ensures PutAt(evs, j, p)
  {
    assert evs[..|evs| - 1][..j] == evs[..j];
  }

  /** A file is there because a put was accepted, so the clock has started. */
  lemma {:induction false} FileWasPut(evs: seq<Event>, p: Path) returns (j: nat)
    requires After(evs).Some? && IsFile(After(evs).value.store, p)
    ensures PutAt(evs, j, p)
  {
    var init, ev := evs[..|evs| - 1], evs[|evs| - 1];
    var s := After(init).value.store;
    if Accepted(s, ev) && ev.req.PutReq? && ev.req.path == p {
      j := |init|;
    } else {
      assert IsFile(s, p) by {
        AfterIsKeyed(init);
        FileWasThere(s, ev, p);
      }
      j := FileWasPut(init, p);
      PutAtLater(evs, j, p);
    }
  }

  lemma {:induction false} FileWasThere(s: Store, ev: Event, p: Path)
    requires Keyed(s) && Serve(s, ev).Some? && IsFile(Serve(s, ev).value, p)
    requires !(Accepted(s, ev) && ev.req.PutReq? && ev.req.path == p)
    ensures IsFile(s, p)
  {
    if Accepted(s, ev) {
      PreparedPath(s, ev.req, ev.now);
      ApplyProjects(s, Prepare(s, ev.req, ev.now).value, p);
    }
  }

  /** The lease on `p` is over at `now`: each accepted put or update_lock on it is more than an interval
      old, or was followed by an accepted put_ok or rm. */
  ghost predicate Expired(evs: seq<Event>, p: Path, now: nat) {
    forall j: nat | LeasedAt(evs, j, p) :: evs[j].now + 60 < now
  }

  /** The request at `j` took or renewed the lease when the path was already the file it is now. */
  lemma {:induction false} LeasedIsTaken(evs: seq<Event>, j: nat, p: Path)
    requires After(evs).Some? && IsFile(After(evs).value.store, p) && LeasedAt(evs, j, p)
    ensures TakenAt(evs, j, p)
  {
    PrefixAfter(evs, j + 1);
    var run := evs[..j + 1];
    assert run[..j] == evs[..j];
    AfterIsKeyed(evs[..j]);
    TakenIsValid(After(evs[..j]).value.store, evs[j], p);
    assert forall k {:trigger evs[k]} | j + 1 <= k < |evs| && After(evs[..k]).Some? ::
        evs[k].req == RmReq(p) ==> !Accepted(After(evs[..k]).value.store, evs[k]) by {
      forall k {:trigger evs[k]} | j + 1 <= k < |evs| && After(evs[..k]).Some?
        ensures evs[k].req == RmReq(p) ==> !Accepted(After(evs[..k]).value.store, evs[k])
      {
        assert KeptAt(evs, k, p);
      }
    }
    KindChangesOnlyThroughRm(evs, j + 1, p);
  }

  lemma {:induction false} TakenIsValid(s: Store, ev: Event, p: Path)
    requires Keyed(s) && Accepted(s, ev) && Takes(ev.req, p) && Serve(s, ev).Some?
    ensures GetInode(Serve(s, ev).value, p).valid
  {
    PreparedPath(s, ev.req, ev.now);
    ApplyProjects(s, Prepare(s, ev.req, ev.now).value, p);
  }

  /** A put on a file gets through if and only if its lease has expired on that path and the storage type is
      good: whatever else the namenode is asked in the meantime, an abandoned lease runs out. */
  lemma {:induction false} LeaseDecides(evs: seq<Event>, p: Path, text: string, now: nat)
    requires Clocked(evs) && After(evs).Some? && IsFile(After(evs).value.store, p)
    ensures Accepted(After(evs).value.store, Event(now, PutReq(p, text))) <==>
              now > 0 && Expired(evs, p, now) && StorageText.FromString(text).Ok?
  {
    var s := After(evs).value.store;
    PutAcceptedIff(s, p, text, now);
    if Deadline(s, p) < now {
      forall j: nat | LeasedAt(evs, j, p) ensures evs[j].now + 60 < now {
        LeasedIsTaken(evs, j, p);
        TakenSetsDeadline(evs, j, p);
        PrefixAfter(evs, j + 1);
        DeadlineNeverShortens(evs, j + 1, p);
      }
    } else {
      DeadlineIsLeased(evs, p);
    }
  }

  /** If every accepted put and update_lock on the path is more than one interval old, a put goes through. */
  lemma {:induction false} AbandonedLeaseExpires(evs: seq<Event>, p: Path, text: string, now: nat)
    requires Clocked(evs) && After(evs).Some? && IsFile(After(evs).value.store, p) && StorageText.FromString(text).Ok?
    requires forall j | 0 <= j < |evs| && Takes(evs[j].req, p) && After(evs[..j]).Some? && Accepted(After(evs[..j]).value.store, evs[j]) ::
               evs[j].now + 60 < now
    ensures Accepted(After(evs).value.store, Event(now, PutReq(p, text)))
  {
    var j := FileWasPut(evs, p);
    assert evs[j].now + 60 < now;
    LeaseDecides(evs, p, text, now);
  }
}
