/** What the order of the root's listing means for the replicas: in which systems every replica that has
    caught up holds one and the same database. */
module ReplayOrder {
  import opened Results
  import opened Inodes
  import opened Metadata
  import opened Projection
  import opened Replication
  import opened RootOrder
  import StorageText

  function RootListing(s: Store): seq<string> { Sub(Lookup(s, ROOT)) }

  // ----- logs and listings -----

  /** No entry targets the root itself. */
  ghost predicate Spared(log: seq<Entry>) {
    forall i | 0 <= i < |log| :: log[i].op == OpUnknown || log[i].inode.path != ROOT
  }

  lemma {:induction false} SparedIfUnwritten(log: seq<Entry>)
    requires JustifiedLog(log) && !Written(log, ROOT)
    ensures Spared(log)
  {
    forall i | 0 <= i < |log| ensures log[i].op == OpUnknown || log[i].inode.path != ROOT {
      RootStepQuiet(log, i);
    }
  }

  lemma {:induction false} ProjectListing(log: seq<Entry>, v: Option<Inode>)
    requires Spared(log)
    ensures Sub(Project(log, ROOT, v)) == ListingAfter(log, Sub(v))
  {
    if log != [] {
      ProjectListing(log[..|log| - 1], v);
    }
  }

  lemma {:induction false} ApplyListing(s: Store, log: seq<Entry>)
    requires Keyed(s) && Spared(log) && ApplyLog(s, log).Some?
    ensures RootListing(ApplyLog(s, log).value) == ListingAfter(log, RootListing(s))
  {
    LogProjects(s, log, ROOT);
    ProjectListing(log, Lookup(s, ROOT));
  }

  /** The listing that the log alone gives the root. */
  function OwnListing(log: seq<Entry>): seq<string> { ListingAfter(log, []) }

  lemma {:induction false} CanonicalListing(log: seq<Entry>)
    requires JustifiedLog(log) && Spared(log)
    ensures ApplyLog(map[], log).Some? && RootListing(ApplyLog(map[], log).value) == OwnListing(log)
  {
    assert log[..|log|] == log;
    CanonicalTracks(log, |log|);
    ApplyListing(map[], log);
  }

  lemma {:induction false} ReplaysBegin(log: seq<Entry>, ns: seq<nat>)
    requires JustifiedLog(log) && Spared(log) && Within(log, ns)
    ensures Replays(log, ns).Some? && Keyed(Replays(log, ns).value)
    ensures Begun(log, RootListing(Replays(log, ns).value))
  {
    ReplaysTrack(log, ns);
    if ns != [] {
      var init, n := ns[..|ns| - 1], ns[|ns| - 1];
      ReplaysBegin(log, init);
      var s := Replays(log, init).value;
      ApplyListing(s, log[..n]);
      PartialReplayBegins(log, n, RootListing(s));
    }
  }

  /** The root's listing after partial replays and then the whole log. */
  lemma {:induction false} FullReplayListing(log: seq<Entry>, ns: seq<nat>)
    requires JustifiedLog(log) && Spared(log) && Within(log, ns)
    ensures Replays(log, ns).Some? && Replays(log, ns + [|log|]).Some?
    ensures RootListing(Replays(log, ns + [|log|]).value) == ListingAfter(log, RootListing(Replays(log, ns).value))
  {
    ReplaysBegin(log, ns);
    ReplayConvergence(log, ns);
    assert (ns + [|log|])[..|ns|] == ns && log[..|log|] == log;
    ApplyListing(Replays(log, ns).value, log);
  }

  lemma {:induction false} SameListingIsSame(s: Store, t: Store)
    requires SameUpToRootOrder(s, t) && RootListing(s) == RootListing(t)
    ensures s == t
  {
    forall k ensures Lookup(s, k) == Lookup(t, k) {
      if k == ROOT && ROOT in s {
        assert s[ROOT] == s[ROOT].(sub := []).(sub := s[ROOT].sub);
        assert t[ROOT] == t[ROOT].(sub := []).(sub := t[ROOT].sub);
      }
    }
    assert forall k :: k in s <==> Lookup(s, k).Some?;
    assert forall k :: k in t <==> Lookup(t, k).Some?;
  }

  // ----- replays -----

  /** The order in which a log leaves the root's listing does not depend on what it is applied to. */
  ghost predicate OrderIsSafe(log: seq<Entry>) {
    Written(log, ROOT) || !Inverted(OwnListing(log), RemovedNames(log))
  }

  lemma {:induction false} SafeReplaysAreExact(log: seq<Entry>, ns: seq<nat>)
    requires JustifiedLog(log) && Within(log, ns) && OrderIsSafe(log)
    ensures Replays(log, ns + [|log|]) == ApplyLog(map[], log)
  {
    ReplayConvergence(log, ns);
    if !Written(log, ROOT) {
      SparedIfUnwritten(log);
      FullReplayListing(log, ns);
      ReplaysBegin(log, ns);
      FullReplayIsOwn(log, RootListing(Replays(log, ns).value));
      CanonicalListing(log);
      SameListingIsSame(Replays(log, ns + [|log|]).value, ApplyLog(map[], log).value);
    }
  }

  lemma {:induction false} UnsafeReplayDiffers(log: seq<Entry>)
    requires JustifiedLog(log) && !OrderIsSafe(log)
    ensures Replays(log, [|log|] + [|log|]).Some? && ApplyLog(map[], log).Some?
    ensures RootListing(Replays(log, [|log|] + [|log|]).value) != RootListing(ApplyLog(map[], log).value)
  {
    SparedIfUnwritten(log);
    CanonicalListing(log);
    OwnReplayListing(log);
    OwnReplayIff(log);
  }

  /** Replaying a log over its own result, or over what any partial replays left, gives exactly what the log
      gives an empty database if and only if no name that it removes from the root's listing precedes, in the
      final listing, a name that it never removes (or an entry replaced the root as a whole). */
  lemma {:induction false} ReplayIsExactIff(log: seq<Entry>)
    requires JustifiedLog(log)
    ensures Replays(log, [|log|] + [|log|]) == ApplyLog(map[], log) <==> OrderIsSafe(log)
    ensures (forall ns: seq<nat> | Within(log, ns) :: Replays(log, ns + [|log|]) == ApplyLog(map[], log)) <==> OrderIsSafe(log)
  {
    if OrderIsSafe(log) {
      forall ns: seq<nat> | Within(log, ns) ensures Replays(log, ns + [|log|]) == ApplyLog(map[], log) {
        SafeReplaysAreExact(log, ns);
      }
      assert Within(log, [|log|]);
    } else {
      UnsafeReplayDiffers(log);
      assert Within(log, [|log|]);
    }
  }

  // ----- every replica's database is some sequence of replays -----

  ghost predicate IsReplay(log: seq<Entry>, pos: nat, s: Store) {
    pos <= |log| && exists ns: seq<nat> | Within(log, ns) :: Replays(log, ns + [pos]) == Some(s)
  }

  ghost predicate ReplicaReplays(log: seq<Entry>, self: Replica) {
    && IsReplay(log, self.pos, self.store)
    && (self.backup.Some? ==> IsReplay(log, self.backup.value.pos, self.backup.value.store))
  }

  ghost predicate AllReplay(a: System) {
    forall r | 0 <= r < |a.replicas| :: ReplicaReplays(a.log, a.replicas[r])
  }

  lemma {:induction false} ReplaysLonger(log: seq<Entry>, e: Entry, ns: seq<nat>)
    requires Within(log, ns)
    ensures Within(log + [e], ns) && Replays(log + [e], ns) == Replays(log, ns)
  {
    if ns != [] {
      ReplaysLonger(log, e, ns[..|ns| - 1]);
      assert (log + [e])[..ns[|ns| - 1]] == log[..ns[|ns| - 1]];
    }
  }

  lemma {:induction false} IsReplayLonger(log: seq<Entry>, e: Entry, pos: nat, s: Store)
    requires IsReplay(log, pos, s)
    ensures IsReplay(log + [e], pos, s)
  {
    var ns: seq<nat> :| Within(log, ns) && Replays(log, ns + [pos]) == Some(s);
    ReplaysLonger(log, e, ns + [pos]);
    assert Within(log + [e], ns);
  }

  lemma {:induction false} IsReplayNext(log: seq<Entry>, pos: nat, s: Store)
    requires IsReplay(log, pos, s) && pos < |log| && Apply(s, log[pos]).Some?
    ensures IsReplay(log, pos + 1, Apply(s, log[pos]).value)
  {
    var ns: seq<nat> :| Within(log, ns) && Replays(log, ns + [pos]) == Some(s);
    assert (ns + [pos])[..|ns|] == ns && (ns + [pos + 1])[..|ns|] == ns;
    assert log[..pos + 1][..pos] == log[..pos];
    assert Replays(log, ns + [pos + 1]) == Some(Apply(s, log[pos]).value);
  }

  lemma {:induction false} IsReplayAgain(log: seq<Entry>, pos: nat, s: Store)
    requires IsReplay(log, pos, s)
    ensures IsReplay(log, 0, s)
  {
    var ns: seq<nat> :| Within(log, ns) && Replays(log, ns + [pos]) == Some(s);
    var before := ns + [pos];
    assert (before + [0])[..|before|] == before && log[..0] == [];
    assert Within(log, before) && Replays(log, before + [0]) == Some(s);
  }

  lemma {:induction false} EmptyIsReplay(log: seq<Entry>)
    ensures IsReplay(log, 0, map[])
  {
    var ns: seq<nat> := [];
    assert (ns + [0])[..0] == ns && log[..0] == [];
    assert Within(log, ns) && Replays(log, ns + [0]) == Some(map[]);
  }

  lemma {:induction false} AllReplayNext(a: System, act: Action, b: System)
    requires AllReplay(a) && Next(a, act, b)
    ensures AllReplay(b)
  {
    match act {
      case Propose(r, req, now) =>
        assert b.log == a.log && b.replicas == a.replicas;
      case Commit(e) =>
        AllReplayCommit(a, e);
      case ApplyNext(r) =>
        IsReplayNext(a.log, a.replicas[r].pos, a.replicas[r].store);
      case SaveBackup(r) =>
      case Restart(r) =>
        IsReplayAgain(a.log, a.replicas[r].pos, a.replicas[r].store);
      case Join =>
        EmptyIsReplay(a.log);
    }
  }

  lemma {:induction false} AllReplayCommit(a: System, e: Entry)
    requires AllReplay(a)
    ensures forall r | 0 <= r < |a.replicas| :: ReplicaReplays(a.log + [e], a.replicas[r])
  {
    forall r | 0 <= r < |a.replicas| ensures ReplicaReplays(a.log + [e], a.replicas[r]) {
      var self := a.replicas[r];
      assert ReplicaReplays(a.log, self);
      IsReplayLonger(a.log, e, self.pos, self.store);
      if self.backup.Some? {
        IsReplayLonger(a.log, e, self.backup.value.pos, self.backup.value.store);
      }
    }
  }

  // ----- reachable systems -----

  ghost predicate Ends(states: seq<System>, acts: seq<Action>, a: System) {
    Execution(states, acts) && states[|acts|] == a
  }

  ghost predicate Reachable(a: System) { exists states, acts :: Ends(states, acts, a) }

  lemma {:induction false} ReachableStart()
    ensures Reachable(System([], multiset{}, []))
  {
    assert Ends([System([], multiset{}, [])], [], System([], multiset{}, []));
  }

  lemma {:induction false} ReachableNext(a: System, act: Action, b: System)
    requires Reachable(a) && Next(a, act, b)
    ensures Reachable(b)
  {
    var states, acts :| Ends(states, acts, a);
    var longer, more := states + [b], acts + [act];
    forall i | 0 <= i < |more| ensures Next(longer[i], more[i], longer[i + 1]) {
      if i < |acts| {
        assert longer[i] == states[i] && longer[i + 1] == states[i + 1] && more[i] == acts[i];
      }
    }
    assert Ends(longer, more, b);
  }

  lemma {:induction false} ReplayAlong(states: seq<System>, acts: seq<Action>, i: nat)
    requires Execution(states, acts) && i < |states|
    ensures AllReplay(states[i])
  {
    if i > 0 {
      ReplayAlong(states, acts, i - 1);
      assert Next(states[i - 1], acts[i - 1], states[i]);
      AllReplayNext(states[i - 1], acts[i - 1], states[i]);
    }
  }

  lemma {:induction false} ReachableInvariants(a: System)
    requires Reachable(a)
    ensures Inv(a) && AllReplay(a)
  {
    var states, acts :| Ends(states, acts, a);
    InvReachable(states, acts, |acts|);
    ReplayAlong(states, acts, |acts|);
  }

  /** A replica that has caught up, in some reachable system with that log. */
  ghost predicate CaughtUp(log: seq<Entry>, b: System, r: nat) {
    Reachable(b) && b.log == log && r < |b.replicas| && b.replicas[r].pos == |log|
  }

  lemma {:induction false} CaughtUpIsExact(log: seq<Entry>, b: System, r: nat)
    requires CaughtUp(log, b, r) && OrderIsSafe(log)
    ensures Some(b.replicas[r].store) == ApplyLog(map[], log)
  {
    ReachableInvariants(b);
    var self := b.replicas[r];
    assert ReplicaReplays(log, self);
    var ns: seq<nat> :| Within(log, ns) && Replays(log, ns + [self.pos]) == Some(self.store);
    SafeReplaysAreExact(log, ns);
  }

  /** From any reachable system, one replica can apply all that it has not applied yet. */
  lemma {:induction false} CatchUp(a: System, r: nat, n: nat) returns (b: System)
    requires Reachable(a) && r < |a.replicas| && a.replicas[r].pos == 0 && n <= |a.log|
    ensures Reachable(b) && b.log == a.log && |b.replicas| == |a.replicas|
    ensures ApplyLog(a.replicas[r].store, a.log[..n]).Some?
    ensures b.replicas[r] == a.replicas[r].(store := ApplyLog(a.replicas[r].store, a.log[..n]).value, pos := n)
  {
    if n == 0 {
      b := a;
    } else {
      var c := CatchUp(a, r, n - 1);
      assert a.log[..n][..n - 1] == a.log[..n - 1];
      ReachableInvariants(c);
      var self := c.replicas[r];
      ApplySucceeds(c.log, self.pos, self.store);
      b := c.(replicas := c.replicas[r := self.(store := Apply(self.store, c.log[self.pos]).value, pos := self.pos + 1)]);
      ReachableNext(c, ApplyNext(r), b);
    }
  }

  /** A new replica that applies the log, restarts without a backup and applies it again. */
  lemma {:induction false} JoinAndReplay(a: System) returns (b: System, c: System, r: nat)
    requires Reachable(a)
    ensures CaughtUp(a.log, b, r) && Some(b.replicas[r].store) == ApplyLog(map[], a.log)
    ensures CaughtUp(a.log, c, r) && Some(c.replicas[r].store) == Replays(a.log, [|a.log|] + [|a.log|])
  {
    var log := a.log;
    assert log[..|log|] == log;
    r := |a.replicas|;
    var joined := a.(replicas := a.replicas + [Replica(map[], 0, None)]);
    ReachableNext(a, Join, joined);
    b := CatchUp(joined, r, |log|);
    var again := b.(replicas := b.replicas[r := Restarted(b.replicas[r])]);
    ReachableNext(b, Restart(r), again);
    c := CatchUp(again, r, |log|);
    var once, twice: seq<nat> := [|log|], [|log|] + [|log|];
    assert once[..0] == [] && twice[..1] == once;
    assert Replays(log, once) == ApplyLog(map[], log);
    assert Replays(log, twice) == ApplyLog(b.replicas[r].store, log);
  }

  /** Every replica that ever catches up with a log holds exactly what one application of the log to an empty
      database gives if and only if the order of the root's listing is safe. */
  lemma {:induction false} CaughtUpIsExactIff(a: System)
    requires Reachable(a)
    ensures (forall b, r: nat | CaughtUp(a.log, b, r) :: Some(b.replicas[r].store) == ApplyLog(map[], a.log)) <==> OrderIsSafe(a.log)
  {
    if OrderIsSafe(a.log) {
      forall b, r: nat | CaughtUp(a.log, b, r) ensures Some(b.replicas[r].store) == ApplyLog(map[], a.log) {
        CaughtUpIsExact(a.log, b, r);
      }
    } else {
      ReachableInvariants(a);
      UnsafeReplayDiffers(a.log);
      var b, c, r := JoinAndReplay(a);
      assert CaughtUp(a.log, c, r);
    }
  }

  // ----- a concrete run whose order changes -----

  /** A file made, removed and made again, then a directory. */
  function RemadeLog(put: Inode): seq<Entry> {
    [Entry(OpPut, put)] + [Entry(OpPutOk, put)] + [Entry(OpRm, Blank(put.path))]
    + [Entry(OpPut, put)] + [Entry(OpPutOk, put)] + [Entry(OpMkdir, DefaultDir(["c"]))]
  }

  /** A file's entries and a directory's, as far as the root's listing goes. */
  lemma {:induction false} RootListingSteps(put: Inode, v: Option<Inode>)
    requires put.path == ["a"] && !put.isDirectory
    ensures StepKey(Entry(OpPut, put), ROOT, v) == v
    ensures Sub(StepKey(Entry(OpPutOk, put), ROOT, v)) == With(Sub(v), "a")
    ensures Sub(StepKey(Entry(OpRm, Blank(put.path)), ROOT, v)) == Without(Sub(v), "a")
    ensures Sub(StepKey(Entry(OpMkdir, DefaultDir(["c"])), ROOT, v)) == With(Sub(v), "c/")
  {
    assert Filename(put) == "a" && Filename(Blank(put.path)) == "a" && Parent(put.path) == ROOT;
    var dir := DefaultDir(["c"]);
    assert Filename(dir) == "c/" && Parent(dir.path) == ROOT;
  }

  function Remade(sub: seq<string>): seq<string> { With(With(Without(With(sub, "a"), "a"), "a"), "c/") }

  lemma {:induction false} RemadeOnce()
    ensures Remade([]) == ["a", "c/"]
  {
    assert Without(["a"], "a") == [];
  }

  lemma {:induction false} RemadeTwice()
    ensures Remade(["a", "c/"]) == ["c/", "a"]
  {
    var sub := ["a", "c/"];
    assert sub[1..] == ["c/"];
    assert Without(["c/"], "a") == ["c/"];
    assert Without(sub, "a") == ["c/"];
  }

  lemma {:induction false} RemadeListing(put: Inode, v: Option<Inode>)
    requires put.path == ["a"] && !put.isDirectory
    ensures Sub(Project(RemadeLog(put), ROOT, v)) == Remade(Sub(v))
  {
    RemadeProjects(put, v);
    RootListingSteps(put, v);
    var v1 := StepKey(Entry(OpPutOk, put), ROOT, v);
    RootListingSteps(put, v1);
    var v2 := StepKey(Entry(OpRm, Blank(put.path)), ROOT, v1);
    RootListingSteps(put, v2);
    RootListingSteps(put, StepKey(Entry(OpPutOk, put), ROOT, v2));
  }

  lemma {:induction false} RemadeProjects(put: Inode, v: Option<Inode>)
    ensures var v1 := StepKey(Entry(OpPutOk, put), ROOT, StepKey(Entry(OpPut, put), ROOT, v));
            var v2 := StepKey(Entry(OpRm, Blank(put.path)), ROOT, v1);
            var v3 := StepKey(Entry(OpPutOk, put), ROOT, StepKey(Entry(OpPut, put), ROOT, v2));
            Project(RemadeLog(put), ROOT, v) == StepKey(Entry(OpMkdir, DefaultDir(["c"])), ROOT, v3)
  {
    var log2 := [Entry(OpPut, put)] + [Entry(OpPutOk, put)];
    var log4 := log2 + [Entry(OpRm, Blank(put.path))] + [Entry(OpPut, put)];
    var log5 := log4 + [Entry(OpPutOk, put)];
    ProjectSnoc([], Entry(OpPut, put), ROOT, v);
    ProjectSnoc([Entry(OpPut, put)], Entry(OpPutOk, put), ROOT, v);
    ProjectSnoc(log2, Entry(OpRm, Blank(put.path)), ROOT, v);
    ProjectSnoc(log2 + [Entry(OpRm, Blank(put.path))], Entry(OpPut, put), ROOT, v);
    ProjectSnoc(log4, Entry(OpPutOk, put), ROOT, v);
    ProjectSnoc(log5, Entry(OpMkdir, DefaultDir(["c"])), ROOT, v);
  }

  /** The first replica has applied all that was committed, and nothing is pending. */
  function Alone(log: seq<Entry>, s: Store): System { System(log, multiset{}, [Replica(s, |log|, None)]) }

  /** A request that is proposed, committed and applied before the next one. */
  lemma {:induction false} ServeAlone(log: seq<Entry>, s: Store, req: Request, e: Entry, t: Store)
    requires Reachable(Alone(log, s)) && ParentKeyPresent(s, req)
    requires Prepare(s, req, 1) == Ok(e) && Apply(s, e) == Some(t)
    ensures Reachable(Alone(log + [e], t))
  {
    var a := Alone(log, s);
    var b := a.(pending := multiset{e});
    ReachableNext(a, Propose(0, req, 1), b);
    var c := System(log + [e], multiset{}, a.replicas);
    ReachableNext(b, Commit(e), c);
    ReachableNext(c, ApplyNext(0), Alone(log + [e], t));
  }

  /** What put proposes for "/a" when nothing is there. */
  function PutA(): Inode { Blank(["a"]).(valid := true, storage := Some(StorageText.RE(1, 1)), ddlLock := 1 + LEASE) }

  lemma {:induction false} PutPrepared(s: Store)
    requires GetInode(s, ["a"]) == Blank(["a"])
    ensures Prepare(s, PutReq(["a"], "RE<1,1>"), 1) == Ok(Entry(OpPut, PutA()))
  {
    StorageText.SmallestType();
  }

  lemma {:induction false} PutOkApplied(u: Store)
    requires Keyed(u) && GetInode(u, ["a"]) == PutA()
    ensures Prepare(u, PutOkReq(["a"], [], 0), 1) == Ok(Entry(OpPutOk, PutA()))
    ensures Apply(u, Entry(OpPutOk, PutA())).Some?
    ensures var t := Apply(u, Entry(OpPutOk, PutA())).value;
            Keyed(t) && GetInode(t, ["a"]) == Unlock(PutA()) && (["c"] in t <==> ["c"] in u)
  {
    assert Parent(PutA().path) == ROOT;
  }

  /** put and put_ok on "/a", from a store where it is not there. */
  lemma {:induction false} MakeFile(log: seq<Entry>, s: Store) returns (t: Store)
    requires Reachable(Alone(log, s)) && Keyed(s) && GetInode(s, ["a"]) == Blank(["a"])
    ensures Reachable(Alone(log + [Entry(OpPut, PutA())] + [Entry(OpPutOk, PutA())], t))
    ensures Keyed(t) && GetInode(t, ["a"]) == Unlock(PutA()) && (["c"] in t <==> ["c"] in s)
  {
    var put, putOk := Entry(OpPut, PutA()), Entry(OpPutOk, PutA());
    var u := s[["a"] := PutA()];
    PutPrepared(s);
    PutOkApplied(u);
    t := Apply(u, putOk).value;
    assert Parent(["a"]) == ROOT;
    ServeAlone(log, s, PutReq(["a"], "RE<1,1>"), put, u);
    ServeAlone(log + [put], u, PutOkReq(["a"], [], 0), putOk, t);
  }

  lemma {:induction false} RemadeIsReachable() returns (a: System)
    ensures Reachable(a) && a.log == RemadeLog(PutA())
  {
    ReachableStart();
    var s0: Store := map[];
    ReachableNext(System([], multiset{}, []), Join, Alone([], s0));
    var s2 := MakeFile([], s0);
    var log2 := [] + [Entry(OpPut, PutA())] + [Entry(OpPutOk, PutA())];
    var rm := Entry(OpRm, Blank(["a"]));
    assert Parent(["a"]) == ROOT && Parent(["c"]) == ROOT;
    var s3 := Apply(s2, rm).value;
    ServeAlone(log2, s2, RmReq(["a"]), rm, s3);
    var s5 := MakeFile(log2 + [rm], s3);
    var log5 := log2 + [rm] + [Entry(OpPut, PutA())] + [Entry(OpPutOk, PutA())];
    var mkdir := Entry(OpMkdir, DefaultDir(["c"]));
    ServeAlone(log5, s5, MkdirReq(["c"]), mkdir, Apply(s5, mkdir).value);
    a := Alone(log5 + [mkdir], Apply(s5, mkdir).value);
    assert a.log == RemadeLog(PutA());
  }

  lemma {:induction false} RemadeSpared()
    ensures Spared(RemadeLog(PutA()))
  {
  }

  lemma {:induction false} RemadeAfter(sub: seq<string>)
    ensures ListingAfter(RemadeLog(PutA()), sub) == Remade(sub)
  {
    var v := Some(DefaultDir(ROOT).(sub := sub));
    RemadeSpared();
    RemadeListing(PutA(), v);
    ProjectListing(RemadeLog(PutA()), v);
  }

  /** Two reachable systems with this log, and a replica that has caught up with it in both: the two entries of
      the root's listing are swapped. */
  lemma {:induction false} RootOrderCanChange() returns (b: System, c: System, r: nat)
    ensures CaughtUp(RemadeLog(PutA()), b, r) && RootListing(b.replicas[r].store) == ["a", "c/"]
    ensures CaughtUp(RemadeLog(PutA()), c, r) && RootListing(c.replicas[r].store) == ["c/", "a"]
  {
    var a := RemadeIsReachable();
    var log := a.log;
    assert Inv(a) by { ReachableInvariants(a); }
    RemadeSpared();
    b, c, r := JoinAndReplay(a);
    assert RootListing(b.replicas[r].store) == ["a", "c/"] by {
      CanonicalListing(log);
      RemadeAfter([]);
      RemadeOnce();
    }
    OwnReplayListing(log);
    RemadeAfter(["a", "c/"]);
    RemadeTwice();
  }

  lemma {:induction false} OwnReplayListing(log: seq<Entry>)
    requires JustifiedLog(log) && Spared(log)
    ensures ApplyLog(map[], log).Some? && Replays(log, [|log|] + [|log|]).Some?
    ensures RootListing(Replays(log, [|log|] + [|log|]).value) == ListingAfter(log, RootListing(ApplyLog(map[], log).value))
  {
    assert [|log|][..0] == [] && log[..|log|] == log;
    CanonicalListing(log);
    FullReplayListing(log, [|log|]);
  }
}
