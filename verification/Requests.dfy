/** What each request needs to be accepted, told by the history of the namenode alone, and what it then does. */
module Requests {
  import opened Results
  import opened Inodes
  import opened Metadata
  import opened Projection
  import opened Namespace
  import opened Lease
  import StorageText

  predicate IsDir(s: Store, p: Path) { GetInode(s, p).valid && GetInode(s, p).isDirectory }

  // ----- answers in terms of the store -----

  lemma {:induction false} MkdirAnswer(s: Store, p: Path, now: nat)
    ensures Accepted(s, Event(now, MkdirReq(p))) <==> Live(s, Parent(p)) && !Live(s, p)
    ensures !Live(s, Parent(p)) ==> Prepare(s, MkdirReq(p), now) == Err(PathNotExists(Parent(p)))
    ensures Live(s, Parent(p)) && Live(s, p) ==> Prepare(s, MkdirReq(p), now) == Err(PathAlreadyExists(p))
  {
  }

  lemma {:induction false} RmAnswer(s: Store, p: Path, now: nat)
    ensures Accepted(s, Event(now, RmReq(p))) <==> Live(s, p)
    ensures !Live(s, p) ==> Prepare(s, RmReq(p), now) == Err(PathNotExists(p))
  {
  }

  lemma {:induction false} PutAnswer(s: Store, p: Path, text: string, now: nat)
    requires Keyed(s)
    ensures Accepted(s, Event(now, PutReq(p, text))) <==> !IsDir(s, p) && Deadline(s, p) < now && StorageText.FromString(text).Ok?
    ensures IsDir(s, p) ==> Prepare(s, PutReq(p, text), now) == Err(PathAlreadyExists(p))
    ensures !IsDir(s, p) && now <= Deadline(s, p) ==> Prepare(s, PutReq(p, text), now) == Err(LockConflict(p, Deadline(s, p)))
    ensures !IsDir(s, p) && Deadline(s, p) < now && StorageText.FromString(text).Err? ==>
              Prepare(s, PutReq(p, text), now) == Err(BadStorageType(text))
  {
  }

  lemma {:induction false} PutOkAnswer(s: Store, p: Path, sub: seq<string>, filesize: nat, now: nat)
    requires Keyed(s)
    ensures Accepted(s, Event(now, PutOkReq(p, sub, filesize))) <==> IsFile(s, p)
    ensures IsDir(s, p) ==> Prepare(s, PutOkReq(p, sub, filesize), now) == Err(ExpectedFile(p))
    ensures !IsDir(s, p) && !IsFile(s, p) ==> Prepare(s, PutOkReq(p, sub, filesize), now) == Err(PathNotExists(p))
  {
  }

  lemma {:induction false} UpdateLockAnswer(s: Store, p: Path, now: nat)
    requires Keyed(s)
    ensures Accepted(s, Event(now, UpdateLockReq(p))) <==> IsDir(s, p) || IsFile(s, p)
    ensures !IsDir(s, p) && !IsFile(s, p) ==> Prepare(s, UpdateLockReq(p), now) == Err(PathNotExists(p))
  {
  }

  // ----- the history of a path -----

  /** Event `j` of the run was accepted. */
  predicate AcceptedAt(evs: seq<Event>, j: nat) {
    j < |evs| && After(evs[..j]).Some? && Accepted(After(evs[..j]).value.store, evs[j])
  }

  /** It made a directory, or a file, of `p`. */
  predicate MakesAt(evs: seq<Event>, j: nat, p: Path, dir: bool) {
    AcceptedAt(evs, j) && if dir then evs[j].req == MkdirReq(p) else evs[j].req.PutReq? && evs[j].req.path == p
  }

  predicate RemovesAt(evs: seq<Event>, j: nat, p: Path) { AcceptedAt(evs, j) && evs[j].req == RmReq(p) }

  /** What event `j` made of `p` was not removed since. */
  ghost predicate StandsFrom(evs: seq<Event>, j: nat, p: Path, dir: bool) {
    MakesAt(evs, j, p, dir) && Kept(evs, j, |evs|, p)
  }

  /** `p` was made a directory, or a file, and not removed since. */
  ghost predicate Made(evs: seq<Event>, p: Path, dir: bool) { exists j: nat :: StandsFrom(evs, j, p, dir) }

  /** The root is a directory from the start, until it is removed. */
  ghost predicate FromStart(evs: seq<Event>, p: Path, dir: bool) { dir && p == ROOT && Kept(evs, -1, |evs|, p) }

  ghost predicate Stands(evs: seq<Event>, p: Path, dir: bool) { FromStart(evs, p, dir) || Made(evs, p, dir) }

  ghost predicate Present(evs: seq<Event>, p: Path) { Stands(evs, p, true) || Stands(evs, p, false) }

  /** What mkdir and rm take for existence: the root always, even after it was removed. */
  ghost predicate Exists(evs: seq<Event>, p: Path) { p == ROOT || Present(evs, p) }

  lemma {:induction false} SameAt(evs: seq<Event>, n: nat, j: nat, p: Path)
    requires j < n <= |evs|
    ensures AcceptedAt(evs[..n], j) <==> AcceptedAt(evs, j)
    ensures RemovesAt(evs[..n], j, p) <==> RemovesAt(evs, j, p)
    ensures MakesAt(evs[..n], j, p, true) <==> MakesAt(evs, j, p, true)
    ensures MakesAt(evs[..n], j, p, false) <==> MakesAt(evs, j, p, false)
  {
    assert evs[..n][..j] == evs[..j] && evs[..n][j] == evs[j];
  }

  /** No event after `j` and before `n` removes `p`. */
  ghost predicate Kept(evs: seq<Event>, j: int, n: nat, p: Path) { forall k: nat | j < k < n :: !RemovesAt(evs, k, p) }

  lemma {:induction false} KeptInit(evs: seq<Event>, n: nat, j: int, p: Path)
    requires n <= |evs|
    ensures Kept(evs[..n], j, n, p) <==> Kept(evs, j, n, p)
  {
    forall k: nat | j < k < n ensures RemovesAt(evs[..n], k, p) <==> RemovesAt(evs, k, p) {
      SameAt(evs, n, k, p);
    }
  }

  lemma {:induction false} StandsFromInit(evs: seq<Event>, n: nat, j: nat, p: Path, dir: bool)
    requires |evs| == n + 1 && j < n
    ensures StandsFrom(evs, j, p, dir) <==> StandsFrom(evs[..n], j, p, dir) && !RemovesAt(evs, n, p)
  {
    assert MakesAt(evs[..n], j, p, dir) <==> MakesAt(evs, j, p, dir) by { SameAt(evs, n, j, p); }
    KeptInit(evs, n, j, p);
    assert Kept(evs, j, n + 1, p) <==> Kept(evs, j, n, p) && !RemovesAt(evs, n, p);
  }

  lemma {:induction false} StandsNow(evs: seq<Event>, n: nat, p: Path, dir: bool)
    requires |evs| == n + 1 && MakesAt(evs, n, p, dir)
    ensures Made(evs, p, dir)
  {
    assert StandsFrom(evs, n, p, dir);
  }

  lemma {:induction false} StandsStill(evs: seq<Event>, n: nat, p: Path, dir: bool)
    requires |evs| == n + 1 && Made(evs[..n], p, dir) && !RemovesAt(evs, n, p)
    ensures Made(evs, p, dir)
  {
    var j: nat :| StandsFrom(evs[..n], j, p, dir);
    StandsFromInit(evs, n, j, p, dir);
  }

  lemma {:induction false} StoodBefore(evs: seq<Event>, n: nat, p: Path, dir: bool)
    requires |evs| == n + 1 && Made(evs, p, dir) && !MakesAt(evs, n, p, dir)
    ensures Made(evs[..n], p, dir) && !RemovesAt(evs, n, p)
  {
    var j: nat :| StandsFrom(evs, j, p, dir);
    assert j != n;
    StandsFromInit(evs, n, j, p, dir);
  }

  lemma {:induction false} MadeSnoc(evs: seq<Event>, n: nat, p: Path, dir: bool)
    requires |evs| == n + 1
    ensures Made(evs, p, dir) <==> MakesAt(evs, n, p, dir) || (Made(evs[..n], p, dir) && !RemovesAt(evs, n, p))
  {
    if MakesAt(evs, n, p, dir) {
      StandsNow(evs, n, p, dir);
    } else if Made(evs[..n], p, dir) && !RemovesAt(evs, n, p) {
      StandsStill(evs, n, p, dir);
    } else if Made(evs, p, dir) {
      StoodBefore(evs, n, p, dir);
    }
  }

  lemma {:induction false} StandsSnoc(evs: seq<Event>, n: nat, p: Path, dir: bool)
    requires |evs| == n + 1
    ensures Stands(evs, p, dir) <==> MakesAt(evs, n, p, dir) || (Stands(evs[..n], p, dir) && !RemovesAt(evs, n, p))
  {
    MadeSnoc(evs, n, p, dir);
    KeptInit(evs, n, -1, p);
    assert Kept(evs, -1, n + 1, p) <==> Kept(evs, -1, n, p) && !RemovesAt(evs, n, p);
  }

  /** One request changes what a path is only if it makes or removes it. */
  lemma {:induction false} KindStep(s: Store, ev: Event, p: Path)
    requires Keyed(s) && Serve(s, ev).Some?
    ensures var t := Serve(s, ev).value;
            && (IsDir(t, p) <==> (Accepted(s, ev) && ev.req == MkdirReq(p)) || (IsDir(s, p) && !(Accepted(s, ev) && ev.req == RmReq(p))))
            && (IsFile(t, p) <==>
                  (Accepted(s, ev) && ev.req.PutReq? && ev.req.path == p) || (IsFile(s, p) && !(Accepted(s, ev) && ev.req == RmReq(p))))
  {
    if Accepted(s, ev) {
      PreparedPath(s, ev.req, ev.now);
      ApplyProjects(s, Prepare(s, ev.req, ev.now).value, p);
    }
  }

  /** In every run a path is a directory exactly if it was made one and not removed since, and the same for files. */
  lemma {:induction false} KindIsMade(evs: seq<Event>, p: Path)
    requires After(evs).Some?
    ensures IsDir(After(evs).value.store, p) <==> Stands(evs, p, true)
    ensures IsFile(After(evs).value.store, p) <==> Stands(evs, p, false)
  {
    if evs != [] {
      var n := |evs| - 1;
      KindIsMade(evs[..n], p);
      AfterIsKeyed(evs[..n]);
      KindStep(After(evs[..n]).value.store, evs[n], p);
      StandsSnoc(evs, n, p, true);
      StandsSnoc(evs, n, p, false);
    }
  }

  lemma {:induction false} LiveIsMade(evs: seq<Event>, p: Path)
    requires After(evs).Some?
    ensures Live(After(evs).value.store, p) <==> Exists(evs, p)
  {
    if p != ROOT {
      KindIsMade(evs, p);
    }
  }

  // ----- answers in terms of the history -----

  /** mkdir: accepted if and only if the parent exists and the path does not. */
  lemma {:induction false} MkdirAcceptedIff(evs: seq<Event>, p: Path, now: nat)
    requires After(evs).Some?
    ensures var answer := Prepare(After(evs).value.store, MkdirReq(p), now);
            && (answer.Ok? <==> Exists(evs, Parent(p)) && !Exists(evs, p))
            && (!Exists(evs, Parent(p)) ==> answer == Err(PathNotExists(Parent(p))))
            && (Exists(evs, Parent(p)) && Exists(evs, p) ==> answer == Err(PathAlreadyExists(p)))
  {
    LiveIsMade(evs, p);
    LiveIsMade(evs, Parent(p));
    MkdirAnswer(After(evs).value.store, p, now);
  }

  /** rm: accepted if and only if the path exists. */
  lemma {:induction false} RmAcceptedIff(evs: seq<Event>, p: Path, now: nat)
    requires After(evs).Some?
    ensures var answer := Prepare(After(evs).value.store, RmReq(p), now);
            (answer.Ok? <==> Exists(evs, p)) && (!Exists(evs, p) ==> answer == Err(PathNotExists(p)))
  {
    LiveIsMade(evs, p);
    RmAnswer(After(evs).value.store, p, now);
  }

  /** put_ok: accepted if and only if the path is a file. */
  lemma {:induction false} PutOkAcceptedIff(evs: seq<Event>, p: Path, sub: seq<string>, filesize: nat, now: nat)
    requires After(evs).Some?
    ensures var answer := Prepare(After(evs).value.store, PutOkReq(p, sub, filesize), now);
            && (answer.Ok? <==> Stands(evs, p, false))
            && (Stands(evs, p, true) ==> answer == Err(ExpectedFile(p)))
            && (!Present(evs, p) ==> answer == Err(PathNotExists(p)))
  {
    KindIsMade(evs, p);
    AfterIsKeyed(evs);
    PutOkAnswer(After(evs).value.store, p, sub, filesize, now);
  }

  /** update_lock: accepted if and only if the path is a directory or a file. */
  lemma {:induction false} UpdateLockAcceptedIff(evs: seq<Event>, p: Path, now: nat)
    requires After(evs).Some?
    ensures var answer := Prepare(After(evs).value.store, UpdateLockReq(p), now);
            (answer.Ok? <==> Present(evs, p)) && (!Present(evs, p) ==> answer == Err(PathNotExists(p)))
  {
    KindIsMade(evs, p);
    AfterIsKeyed(evs);
    UpdateLockAnswer(After(evs).value.store, p, now);
  }

  /** Nobody holds a lease on a path that is not there. */
  lemma {:induction false} AbsentIsFree(evs: seq<Event>, p: Path)
    requires After(evs).Some? && !Present(evs, p)
    ensures Deadline(After(evs).value.store, p) == 0
  {
    KindIsMade(evs, p);
    InvalidIsFree(evs, p);
  }

  lemma {:induction false} InvalidIsFree(evs: seq<Event>, p: Path)
    requires After(evs).Some?
    ensures !GetInode(After(evs).value.store, p).valid ==> Deadline(After(evs).value.store, p) == 0
  {
    if evs != [] {
      var init := evs[..|evs| - 1];
      InvalidIsFree(init, p);
      AfterIsKeyed(init);
      InvalidStep(After(init).value.store, evs[|evs| - 1], p);
    }
  }

  lemma {:induction false} InvalidStep(s: Store, ev: Event, p: Path)
    requires Keyed(s) && Serve(s, ev).Some? && (!GetInode(s, p).valid ==> Deadline(s, p) == 0)
    ensures !GetInode(Serve(s, ev).value, p).valid ==> Deadline(Serve(s, ev).value, p) == 0
  {
    if Accepted(s, ev) {
      PreparedPath(s, ev.req, ev.now);
      ApplyProjects(s, Prepare(s, ev.req, ev.now).value, p);
    }
  }

  /** put: never on a directory; on a path that is not there, at every time but 0, given a storage type; on a file
      if and only if its lease is over. */
  lemma {:induction false} PutAcceptedByHistory(evs: seq<Event>, p: Path, text: string, now: nat)
    requires Clocked(evs) && After(evs).Some?
    ensures var answer := Prepare(After(evs).value.store, PutReq(p, text), now);
            && (Stands(evs, p, true) ==> answer == Err(PathAlreadyExists(p)))
            && (!Present(evs, p) ==> (answer.Ok? <==> now > 0 && StorageText.FromString(text).Ok?))
            && (Stands(evs, p, false) ==> (answer.Ok? <==> now > 0 && Expired(evs, p, now) && StorageText.FromString(text).Ok?))
  {
    var s := After(evs).value.store;
    KindIsMade(evs, p);
    AfterIsKeyed(evs);
    PutAnswer(s, p, text, now);
    if !Present(evs, p) {
      AbsentIsFree(evs, p);
    }
    if Stands(evs, p, false) {
      LeaseDecides(evs, p, text, now);
    }
  }

  // ----- the storage type -----

  /** Only an accepted put or rm of the path changes the storage type it has. */
  lemma {:induction false} StorageStep(s: Store, ev: Event, p: Path)
    requires Keyed(s) && Serve(s, ev).Some? && IsFile(Serve(s, ev).value, p)
    ensures var t := Serve(s, ev).value;
            if Accepted(s, ev) && ev.req.PutReq? && ev.req.path == p
            then StorageText.FromString(ev.req.storageText).Ok? && GetInode(t, p).storage == Some(StorageText.FromString(ev.req.storageText).value)
            else IsFile(s, p) && GetInode(t, p).storage == GetInode(s, p).storage && !(Accepted(s, ev) && ev.req == RmReq(p))
  {
    if Accepted(s, ev) {
      PreparedPath(s, ev.req, ev.now);
      ApplyProjects(s, Prepare(s, ev.req, ev.now).value, p);
    }
  }

  /** No event after `j` and before `n` is an accepted put on `p`. */
  ghost predicate NotPutAgain(evs: seq<Event>, j: nat, n: nat, p: Path) { forall k: nat | j < k < n :: !MakesAt(evs, k, p, false) }

  /** The put at `j` is the latest one, and the file was not removed since. */
  ghost predicate LatestPut(evs: seq<Event>, j: nat, p: Path) {
    StandsFrom(evs, j, p, false) && NotPutAgain(evs, j, |evs|, p)
  }

  lemma {:induction false} NotPutInit(evs: seq<Event>, n: nat, j: nat, p: Path)
    requires n <= |evs|
    ensures NotPutAgain(evs[..n], j, n, p) <==> NotPutAgain(evs, j, n, p)
  {
    forall k: nat | j < k < n ensures MakesAt(evs[..n], k, p, false) <==> MakesAt(evs, k, p, false) {
      SameAt(evs, n, k, p);
    }
  }

  lemma {:induction false} LatestPutLater(evs: seq<Event>, n: nat, j: nat, p: Path)
    requires |evs| == n + 1 && LatestPut(evs[..n], j, p) && !RemovesAt(evs, n, p) && !MakesAt(evs, n, p, false)
    ensures LatestPut(evs, j, p)
  {
    assert StandsFrom(evs, j, p, false) by { StandsFromInit(evs, n, j, p, false); }
    assert NotPutAgain(evs, j, n + 1, p) by {
      NotPutInit(evs, n, j, p);
      NotPutSnoc(evs, n, j, p);
    }
  }

  lemma {:induction false} NotPutSnoc(evs: seq<Event>, n: nat, j: nat, p: Path)
    requires NotPutAgain(evs, j, n, p) && !MakesAt(evs, n, p, false)
    ensures NotPutAgain(evs, j, n + 1, p)
  {
  }

  /** In every run a file has the storage type that the text of its latest accepted put parses to. */
  lemma {:induction false} StorageIsLatestPut(evs: seq<Event>, p: Path) returns (j: nat)
    requires After(evs).Some? && IsFile(After(evs).value.store, p)
    ensures LatestPut(evs, j, p) && StorageText.FromString(evs[j].req.storageText).Ok?
    ensures GetInode(After(evs).value.store, p).storage == Some(StorageText.FromString(evs[j].req.storageText).value)
  {
    var n := |evs| - 1;
    var s := After(evs[..n]).value.store;
    AfterIsKeyed(evs[..n]);
    StorageStep(s, evs[n], p);
    if MakesAt(evs, n, p, false) {
      j := n;
    } else {
      j := StorageIsLatestPut(evs[..n], p);
      LatestPutLater(evs, n, j, p);
    }
  }

  // ----- what an accepted request does -----

  /** Everything but the target and its parent stays, and of the parent everything but its listing. */
  ghost predicate Spares(s: Store, t: Store, p: Path) {
    && (forall q {:trigger GetInode(t, q)} | q != p && q != Parent(p) :: GetInode(t, q) == GetInode(s, q))
    && (p != ROOT ==> GetInode(t, Parent(p)).(sub := []) == GetInode(s, Parent(p)).(sub := []))
  }

  /** mkdir: an empty directory without lease or storage type; its name with a slash is added at the end of the listing. */
  lemma {:induction false} MkdirDoes(s: Store, p: Path, now: nat)
    requires Keyed(s) && Accepted(s, Event(now, MkdirReq(p)))
    ensures Serve(s, Event(now, MkdirReq(p))).Some?
    ensures var t := Serve(s, Event(now, MkdirReq(p))).value;
            && Spares(s, t, p) && GetInode(t, p) == Inode(p, true, 0, None, [], true, 0)
            && Listing(t, Parent(p)) == if Base(p) + "/" in Listing(s, Parent(p)) then Listing(s, Parent(p)) else Listing(s, Parent(p)) + [Base(p) + "/"]
  {
    ChildOfParent(p);
    ServedMkdir(s, Event(now, MkdirReq(p)));
  }

  /** rm: nothing of the inode is left; its name without a slash is taken out of the listing, the others keep their order. */
  lemma {:induction false} RmDoes(s: Store, p: Path, now: nat)
    requires Keyed(s) && Accepted(s, Event(now, RmReq(p))) && (Parent(p) in s || Parent(p) == ROOT)
    ensures Serve(s, Event(now, RmReq(p))).Some?
    ensures var t := Serve(s, Event(now, RmReq(p))).value;
            && Spares(s, t, p) && GetInode(t, p) == Inode(p, false, 0, None, [], false, 0)
            && (p != ROOT ==> Listing(t, Parent(p)) == Without(Listing(s, Parent(p)), Base(p)))
            && (p != ROOT ==> forall x :: x in Listing(t, Parent(p)) <==> x in Listing(s, Parent(p)) && x != Base(p))
  {
    if p != ROOT {
      ChildOfParent(p);
      ServedRm(s, Event(now, RmReq(p)));
      WithoutContents(Listing(s, Parent(p)), Base(p));
    }
  }

  /** put: a file with the given storage type, leased for 60 seconds, that keeps what it holds; nothing else changes. */
  lemma {:induction false} PutDoes(s: Store, p: Path, text: string, now: nat)
    requires Keyed(s) && Accepted(s, Event(now, PutReq(p, text)))
    ensures Serve(s, Event(now, PutReq(p, text))).Some? && StorageText.FromString(text).Ok?
    ensures var t, old0 := Serve(s, Event(now, PutReq(p, text))).value, GetInode(s, p);
            && GetInode(t, p) == Inode(p, false, old0.filesize, Some(StorageText.FromString(text).value), old0.sub, true, now + 60)
            && (forall q {:trigger GetInode(t, q)} | q != p :: GetInode(t, q) == GetInode(s, q))
  {
    PutAnswer(s, p, text, now);
    PreparedPath(s, PutReq(p, text), now);
  }

  /** put_ok: the file gets the published blocks and size and its lease ends; its name is added at the end of the listing. */
  lemma {:induction false} PutOkDoes(s: Store, p: Path, sub: seq<string>, filesize: nat, now: nat)
    requires Keyed(s) && Accepted(s, Event(now, PutOkReq(p, sub, filesize))) && (Parent(p) in s || Parent(p) == ROOT)
    ensures Serve(s, Event(now, PutOkReq(p, sub, filesize))).Some?
    ensures var t := Serve(s, Event(now, PutOkReq(p, sub, filesize))).value;
            && Spares(s, t, p) && GetInode(t, p) == Inode(p, false, filesize, GetInode(s, p).storage, sub, true, 0)
            && (p != ROOT ==>
                  Listing(t, Parent(p)) == if Base(p) in Listing(s, Parent(p)) then Listing(s, Parent(p)) else Listing(s, Parent(p)) + [Base(p)])
  {
    if p != ROOT {
      ChildOfParent(p);
      ServedPutOk(s, Event(now, PutOkReq(p, sub, filesize)));
    }
  }

  /** update_lock: the lease runs to 60 seconds from now; nothing else changes. */
  lemma {:induction false} UpdateLockDoes(s: Store, p: Path, now: nat)
    requires Keyed(s) && Accepted(s, Event(now, UpdateLockReq(p)))
    ensures Serve(s, Event(now, UpdateLockReq(p))).Some?
    ensures var t := Serve(s, Event(now, UpdateLockReq(p))).value;
            && GetInode(t, p) == GetInode(s, p).(ddlLock := now + 60)
            && (forall q {:trigger GetInode(t, q)} | q != p :: GetInode(t, q) == GetInode(s, q))
  {
  }

  /** A request that is refused changes nothing. */
  lemma {:induction false} RefusedDoesNothing(s: Store, ev: Event)
    requires !Accepted(s, ev)
    ensures Serve(s, ev) == Some(s)
  {
  }
}
