/** The pipelined system: requests are checked against the applied store of some
    replica, their entries reach the committed log later and in any order, and
    every replica applies the log at its own pace, takes backups and restarts.
    A restart without a backup replays the whole log over the old contents. */
module Replication {
  import opened Results
  import opened Inodes
  import opened Metadata
  import opened Projection
  import StorageText

  datatype Backup = Backup(store: Store, pos: nat)

  /** One replica: its database, how many entries it has applied, its latest backup. */
  datatype Replica = Replica(store: Store, pos: nat, backup: Option<Backup>)

  /** `pending` holds the entries that were prepared and not yet committed. */
  datatype System = System(log: seq<Entry>, pending: multiset<Entry>, replicas: seq<Replica>)

  datatype Action =
    | Propose(replica: nat, req: Request, now: nat)
    | Commit(entry: Entry)
    | ApplyNext(replica: nat)
    | SaveBackup(replica: nat)
    | Restart(replica: nat)
    | Join

  /** prepare_put never looks at the parent; this is what its callers must make sure of. */
  predicate ParentKeyPresent(s: Store, req: Request) {
    req.PutReq? ==> ParentReady(s, req.path)
  }

  ghost predicate Init(a: System) {
    a == System([], multiset{}, [])
  }

  ghost predicate Next(a: System, act: Action, b: System) {
    match act
    case Propose(r, req, now) =>
      && r < |a.replicas|
      && ParentKeyPresent(a.replicas[r].store, req)
      && Prepare(a.replicas[r].store, req, now).Ok?
      && b == a.(pending := a.pending + multiset{Prepare(a.replicas[r].store, req, now).value})
    case Commit(e) =>
      && e in a.pending
      && b == a.(log := a.log + [e], pending := a.pending - multiset{e})
    case ApplyNext(r) =>
      && r < |a.replicas|
      && a.replicas[r].pos < |a.log|
      && var self := a.replicas[r];
         var applied := Apply(self.store, a.log[self.pos]);
         && applied.Some?
         && b == a.(replicas := a.replicas[r := self.(store := applied.value, pos := self.pos + 1)])
    case SaveBackup(r) =>
      && r < |a.replicas|
      && var self := a.replicas[r];
         b == a.(replicas := a.replicas[r := Saved(self)])
    case Restart(r) =>
      && r < |a.replicas|
      && b == a.(replicas := a.replicas[r := Restarted(a.replicas[r])])
    case Join =>
      b == a.(replicas := a.replicas + [Replica(map[], 0, None)])
  }

  /** A backup of the present contents. */
  function Saved(self: Replica): Replica { self.(backup := Some(Backup(self.store, self.pos))) }

  /** load_snapshot restores the latest backup; without one, open() finds the old contents. */
  function Restarted(self: Replica): Replica {
    match self.backup
    case None => self.(pos := 0)
    case Some(b) => self.(store := b.store, pos := b.pos)
  }

  /** After a restart a replica is where its latest backup was; without one it starts over with what it has. */
  lemma {:induction false} RestartIs(self: Replica)
    ensures self.backup.Some? ==>
              Restarted(self).store == self.backup.value.store && Restarted(self).pos == self.backup.value.pos
    ensures self.backup.None? ==> Restarted(self).store == self.store && Restarted(self).pos == 0
    ensures Restarted(self).backup == self.backup
  {
  }

  /** A restart right after a backup finds the replica as it was. */
  lemma {:induction false} SavedIsRestored(self: Replica)
    ensures Saved(self).store == self.store && Saved(self).pos == self.pos
    ensures Restarted(Saved(self)).store == self.store && Restarted(Saved(self)).pos == self.pos
  {
  }

  ghost predicate Execution(states: seq<System>, acts: seq<Action>) {
    && |states| == |acts| + 1
    && Init(states[0])
    && forall i | 0 <= i < |acts| :: Next(states[i], acts[i], states[i + 1])
  }

  // ----- what a proposed entry may rely on -----

  /** When the entry commits, the log has already written what the entry only edits. */
  ghost predicate Justified(log: seq<Entry>, e: Entry) {
    && (Parent(e.inode.path) == ROOT || Written(log, Parent(e.inode.path)))
    && (e.op == OpPutOk ==> Written(log, e.inode.path))
  }

  ghost predicate JustifiedLog(log: seq<Entry>) {
    forall i | 0 <= i < |log| :: Justified(log[..i], log[i])
  }

  lemma {:induction false} JustifiedLater(log: seq<Entry>, e: Entry, f: Entry)
    requires Justified(log, e)
    ensures Justified(log + [f], e)
  {
    WrittenSnoc(log, f, Parent(e.inode.path));
    WrittenSnoc(log, f, e.inode.path);
  }

  lemma {:induction false} JustifiedSnoc(log: seq<Entry>, e: Entry)
    requires JustifiedLog(log) && Justified(log, e)
    ensures JustifiedLog(log + [e])
  {
    var l := log + [e];
    forall i | 0 <= i < |l| ensures Justified(l[..i], l[i]) {
      assert l[..i] == log[..i];
      if i == |log| { assert log[..i] == log; }
    }
  }

  lemma {:induction false} WrittenHasParent(log: seq<Entry>, k: Path)
    requires JustifiedLog(log) && Written(log, k)
    ensures Parent(k) == ROOT || Written(log, Parent(k))
  {
    var i :| 0 <= i < |log| && Whole(log[i]) && log[i].inode.path == k;
    assert Justified(log[..i], log[i]);
    if Parent(k) != ROOT {
      WrittenPrefix(log, i, Parent(k));
    }
  }

  // ----- the listing of "/", which no entry need ever replace -----

  ghost predicate RootEdited(log: seq<Entry>) {
    exists i :: 0 <= i < |log| && Edits(log[i], ROOT)
  }

  ghost predicate Mentioned(log: seq<Entry>, x: string) {
    exists i :: 0 <= i < |log| && Edits(log[i], ROOT) && Filename(log[i].inode) == x
  }

  lemma {:induction false} MentionedSnoc(log: seq<Entry>, e: Entry, x: string)
    ensures Mentioned(log + [e], x) <==> Mentioned(log, x) || (Edits(e, ROOT) && Filename(e.inode) == x)
  {
    var l := log + [e];
    assert l[|log|] == e;
    assert forall i | 0 <= i < |log| :: l[i] == log[i];
  }

  lemma {:induction false} RootEditedSnoc(log: seq<Entry>, e: Entry)
    ensures RootEdited(log + [e]) <==> RootEdited(log) || Edits(e, ROOT)
  {
    var l := log + [e];
    assert l[|log|] == e;
    assert forall i | 0 <= i < |log| :: l[i] == log[i];
  }

  function Sub(v: Option<Inode>): seq<string> {
    if v.Some? then v.value.sub else []
  }

  /** The root's value is a default directory up to its listing. */
  ghost predicate RootShape(log: seq<Entry>, v: Option<Inode>) {
    && (v.Some? ==> v.value == DefaultDir(ROOT).(sub := v.value.sub) && RootEdited(log))
    && NoDup(Sub(v))
    && forall x | x in Sub(v) :: Mentioned(log, x)
  }

  /** After `n` entries: names mentioned so far are listed exactly when they should be. */
  ghost predicate RootTracks(log: seq<Entry>, n: nat, v: Option<Inode>)
    requires n <= |log|
  {
    && RootShape(log, v)
    && (RootEdited(log[..n]) ==> v.Some?)
    && Agrees(log[..n], v)
  }

  /** Both list `x`, or neither does. */
  predicate AgreeOn(v: Option<Inode>, w: Option<Inode>, x: string) { x in Sub(v) <==> x in Sub(w) }

  /** An entry that names `x` settles it; any other keeps agreement. */
  lemma {:induction false} EditAgrees(e: Entry, v: Option<Inode>, w: Option<Inode>, x: string)
    requires e.op == OpUnknown || e.inode.path != ROOT
    requires (Edits(e, ROOT) && Filename(e.inode) == x) || AgreeOn(v, w, x)
    ensures AgreeOn(StepKey(e, ROOT, v), StepKey(e, ROOT, w), x)
  {
    if Edits(e, ROOT) {
      EditedContents(e, ROOT, v, x);
      EditedContents(e, ROOT, w, x);
    }
  }

  lemma {:induction false} ProjectSnoc(log: seq<Entry>, e: Entry, k: Path, v: Option<Inode>)
    ensures Project(log + [e], k, v) == StepKey(e, k, Project(log, k, v))
  {
    assert (log + [e])[..|log|] == log;
  }

  /** The names a log mentions are listed as the log applied to nothing lists them. */
  ghost predicate Agrees(log: seq<Entry>, v: Option<Inode>) {
    forall x | Mentioned(log, x) :: AgreeOn(v, Project(log, ROOT, None), x)
  }

  lemma {:induction false} AgreesStep(log: seq<Entry>, e: Entry, v: Option<Inode>)
    requires (e.op == OpUnknown || e.inode.path != ROOT) && Agrees(log, v)
    ensures Agrees(log + [e], StepKey(e, ROOT, v))
  {
    var next, w := log + [e], StepKey(e, ROOT, v);
    ProjectSnoc(log, e, ROOT, None);
    forall x | Mentioned(next, x) ensures AgreeOn(w, Project(next, ROOT, None), x) {
      MentionedSnoc(log, e, x);
      EditAgrees(e, v, Project(log, ROOT, None), x);
    }
  }

  lemma {:induction false} RootStep(log: seq<Entry>, n: nat, v: Option<Inode>)
    requires n < |log| && RootTracks(log, n, v)
    requires JustifiedLog(log) && !Written(log, ROOT)
    ensures RootTracks(log, n + 1, StepKey(log[n], ROOT, v))
  {
    var e, w := log[n], StepKey(log[n], ROOT, v);
    assert log[..n + 1] == log[..n] + [e];
    assert e.op == OpUnknown || e.inode.path != ROOT by { RootStepQuiet(log, n); }
    assert RootShape(log, w) by { RootShapeStep(log, n, v); }
    assert RootEdited(log[..n + 1]) ==> w.Some? by { RootEditedSnoc(log[..n], e); }
    assert Agrees(log[..n + 1], w) by { AgreesStep(log[..n], e, v); }
  }

  /** Which names an entry leaves in the listing of a key it edits. */
  lemma {:induction false} EditedContents(e: Entry, k: Path, v: Option<Inode>, x: string)
    requires Edits(e, k)
    ensures x in Sub(StepKey(e, k, v)) <==> if x == Filename(e.inode) then e.op != OpRm else x in Sub(v)
    ensures NoDup(Sub(v)) ==> NoDup(Sub(StepKey(e, k, v)))
  {
    WithContents(Sub(v), Filename(e.inode));
    WithoutContents(Sub(v), Filename(e.inode));
  }

  lemma {:induction false} RootShapeStep(log: seq<Entry>, n: nat, v: Option<Inode>)
    requires n < |log| && RootShape(log, v)
    requires log[n].op == OpUnknown || log[n].inode.path != ROOT
    ensures RootShape(log, StepKey(log[n], ROOT, v))
  {
    var e := log[n];
    if Edits(e, ROOT) {
      var w := StepKey(e, ROOT, v);
      EditedContents(e, ROOT, v, Filename(e.inode));
      assert Mentioned(log, Filename(e.inode)) && RootEdited(log);
      forall x | x in Sub(w) ensures Mentioned(log, x) {
        EditedContents(e, ROOT, v, x);
      }
    }
  }

  /** Without a whole write on "/" in the log, entries reach the root only by editing its listing. */
  lemma {:induction false} RootStepQuiet(log: seq<Entry>, n: nat)
    requires n < |log| && JustifiedLog(log) && !Written(log, ROOT)
    ensures log[n].op == OpUnknown || log[n].inode.path != ROOT
    ensures Project(log[..n + 1], ROOT, None) == StepKey(log[n], ROOT, Project(log[..n], ROOT, None))
  {
    assert log[..n + 1][..n] == log[..n];
    assert Justified(log[..n], log[n]);
    if log[n].op == OpPutOk && log[n].inode.path == ROOT {
      WrittenPrefix(log, n, ROOT);
    }
  }

  // ----- a store that follows the log -----

  /** The store holds, for every key the first `n` entries write, what those entries leave
      under it; anything else in it comes from later in the log. */
  ghost predicate Tracks(log: seq<Entry>, n: nat, s: Store)
    requires n <= |log|
  {
    && Keyed(s)
    && (forall k | k in s :: k == ROOT || Written(log, k))
    && (forall k | Written(log[..n], k) :: Lookup(s, k) == Project(log[..n], k, None))
    && (!Written(log, ROOT) ==> RootTracks(log, n, Lookup(s, ROOT)))
  }

  lemma {:induction false} TracksEmpty(log: seq<Entry>)
    ensures Tracks(log, 0, map[])
  {
  }

  /** Going back to the start of the log with the contents kept. */
  lemma {:induction false} TracksRestart(log: seq<Entry>, n: nat, s: Store)
    requires n <= |log| && Tracks(log, n, s)
    ensures Tracks(log, 0, s)
  {
  }

  lemma {:induction false} TracksCommit(log: seq<Entry>, n: nat, s: Store, e: Entry)
    requires n <= |log| && Tracks(log, n, s)
    ensures Tracks(log + [e], n, s)
  {
    var l := log + [e];
    assert l[..n] == log[..n];
    forall k ensures Written(log, k) ==> Written(l, k) { WrittenSnoc(log, e, k); }
    forall x ensures Mentioned(log, x) ==> Mentioned(l, x) { MentionedSnoc(log, e, x); }
    RootEditedSnoc(log, e);
  }

  /** A justified entry finds its parent, in whatever way the store came about. */
  lemma {:induction false} ApplySucceeds(log: seq<Entry>, n: nat, s: Store)
    requires n < |log| && Tracks(log, n, s) && JustifiedLog(log)
    ensures Apply(s, log[n]).Some?
  {
    assert Justified(log[..n], log[n]);
    var parent := Parent(log[n].inode.path);
    if parent != ROOT {
      WholeWriteForgets(log[..n], parent, None, None);
      assert Lookup(s, parent).Some?;
    }
  }

  lemma {:induction false} TracksApply(log: seq<Entry>, n: nat, s: Store)
    requires n < |log| && Tracks(log, n, s) && JustifiedLog(log)
    ensures Apply(s, log[n]).Some?
    ensures Tracks(log, n + 1, Apply(s, log[n]).value)
  {
    ApplySucceeds(log, n, s);
    var e := log[n];
    var t := Apply(s, e).value;
    ApplyKeepsKeyed(s, e);
    assert log[..n + 1] == log[..n] + [e];
    assert log[..n + 1][..n] == log[..n];
    forall k | k in t ensures k == ROOT || Written(log, k) {
      TracksApplyKeys(log, n, s, k);
    }
    forall k | Written(log[..n + 1], k) ensures Lookup(t, k) == Project(log[..n + 1], k, None) {
      ApplyProjects(s, e, k);
      WrittenSnoc(log[..n], e, k);
    }
    if !Written(log, ROOT) {
      ApplyProjects(s, e, ROOT);
      RootStep(log, n, Lookup(s, ROOT));
    }
  }

  lemma {:induction false} TracksApplyKeys(log: seq<Entry>, n: nat, s: Store, k: Path)
    requires n < |log| && Tracks(log, n, s) && JustifiedLog(log)
    requires Apply(s, log[n]).Some? && k in Apply(s, log[n]).value
    ensures k == ROOT || Written(log, k)
  {
    var e := log[n];
    ApplyProjects(s, e, k);
    if k != ROOT && k !in s {
      assert Justified(log[..n], e);
      if k == e.inode.path && Whole(e) {
      } else {
        WrittenPrefix(log, n, k);
      }
    }
  }

  /** Applying the log to the empty store is itself a store that follows the log. */
  lemma {:induction false} CanonicalTracks(log: seq<Entry>, n: nat)
    requires n <= |log| && JustifiedLog(log)
    ensures ApplyLog(map[], log[..n]).Some?
    ensures Tracks(log, n, ApplyLog(map[], log[..n]).value)
  {
    if n == 0 {
      TracksEmpty(log);
    } else {
      CanonicalTracks(log, n - 1);
      assert log[..n][..n - 1] == log[..n - 1];
      TracksApply(log, n - 1, ApplyLog(map[], log[..n - 1]).value);
    }
  }

  // ----- convergence -----

  /** Equal key by key; on "/" the listing may be in another order. */
  ghost predicate SameUpToRootOrder(s: Store, t: Store) {
    && (forall k | k != ROOT :: Lookup(s, k) == Lookup(t, k))
    && (ROOT in s <==> ROOT in t)
    && (ROOT in s ==>
          && s[ROOT].(sub := []) == t[ROOT].(sub := [])
          && multiset(s[ROOT].sub) == multiset(t[ROOT].sub))
  }

  lemma {:induction false} SameElements<T>(a: seq<T>, b: seq<T>)
    requires NoDup(a) && NoDup(b)
    requires forall x :: x in a <==> x in b
    ensures multiset(a) == multiset(b)
  {
    forall x ensures multiset(a)[x] == multiset(b)[x] {
      NoDupCount(a, x);
      NoDupCount(b, x);
    }
  }

  lemma {:induction false} TracksConverges(log: seq<Entry>, s: Store, t: Store)
    requires JustifiedLog(log) && Tracks(log, |log|, s) && Tracks(log, |log|, t)
    ensures SameUpToRootOrder(s, t)
    ensures Written(log, ROOT) ==> s == t
  {
    assert log[..|log|] == log;
    forall k | k != ROOT ensures Lookup(s, k) == Lookup(t, k) {
      if !Written(log, k) {
        assert k !in s && k !in t;
      }
    }
    if Written(log, ROOT) {
      WholeWriteForgets(log, ROOT, None, None);
      assert Lookup(s, ROOT) == Lookup(t, ROOT);
      forall k ensures Lookup(s, k) == Lookup(t, k) { }
      SameLookups(s, t);
    } else {
      RootsConverge(log, Lookup(s, ROOT), Lookup(t, ROOT));
    }
  }

  lemma {:induction false} SameLookups(s: Store, t: Store)
    requires forall k :: Lookup(s, k) == Lookup(t, k)
    ensures s == t
  {
    forall k ensures k in s <==> k in t { assert Lookup(s, k) == Lookup(t, k); }
    forall k | k in s ensures s[k] == t[k] { assert Lookup(s, k) == Lookup(t, k); }
  }

  lemma {:induction false} RootsConverge(log: seq<Entry>, v: Option<Inode>, w: Option<Inode>)
    requires RootTracks(log, |log|, v) && RootTracks(log, |log|, w)
    ensures v.Some? <==> w.Some?
    ensures v.Some? ==> v.value.(sub := []) == w.value.(sub := []) && multiset(v.value.sub) == multiset(w.value.sub)
  {
    assert log[..|log|] == log;
    SameElements(Sub(v), Sub(w));
  }

  predicate Within(log: seq<Entry>, ns: seq<nat>) {
    forall j | 0 <= j < |ns| :: ns[j] <= |log|
  }

  /** The contents after the log's prefixes of the given lengths were replayed one after another. */
  ghost function Replays(log: seq<Entry>, ns: seq<nat>): Option<Store>
    requires Within(log, ns)
  {
    if ns == [] then Some(map[]) else
      match Replays(log, ns[..|ns| - 1])
      case None => None
      case Some(s) => ApplyLog(s, log[..ns[|ns| - 1]])
  }

  lemma {:induction false} ReplayTracks(log: seq<Entry>, n: nat, s: Store)
    requires n <= |log| && JustifiedLog(log) && Tracks(log, 0, s)
    ensures ApplyLog(s, log[..n]).Some?
    ensures Tracks(log, n, ApplyLog(s, log[..n]).value)
  {
    if n > 0 {
      ReplayTracks(log, n - 1, s);
      assert log[..n][..n - 1] == log[..n - 1];
      TracksApply(log, n - 1, ApplyLog(s, log[..n - 1]).value);
    }
  }

  lemma {:induction false} ReplaysTrack(log: seq<Entry>, ns: seq<nat>)
    requires JustifiedLog(log) && Within(log, ns)
    ensures Replays(log, ns).Some?
    ensures Tracks(log, 0, Replays(log, ns).value)
  {
    if ns == [] {
      TracksEmpty(log);
    } else {
      ReplaysTrack(log, ns[..|ns| - 1]);
      var s := Replays(log, ns[..|ns| - 1]).value;
      var n := ns[|ns| - 1];
      ReplayTracks(log, n, s);
      TracksRestart(log, n, ApplyLog(s, log[..n]).value);
    }
  }

  /** Replaying the log over what any sequence of partial replays left behind ends where
      applying it once to an empty database does. */
  lemma {:induction false} ReplayConvergence(log: seq<Entry>, ns: seq<nat>)
    requires JustifiedLog(log) && Within(log, ns)
    ensures Replays(log, ns + [|log|]).Some? && ApplyLog(map[], log).Some?
    ensures SameUpToRootOrder(Replays(log, ns + [|log|]).value, ApplyLog(map[], log).value)
    ensures Written(log, ROOT) ==> Replays(log, ns + [|log|]) == ApplyLog(map[], log)
  {
    assert (ns + [|log|])[..|ns|] == ns;
    assert log[..|log|] == log;
    ReplaysTrack(log, ns);
    ReplayTracks(log, |log|, Replays(log, ns).value);
    CanonicalTracks(log, |log|);
    TracksConverges(log, Replays(log, ns + [|log|]).value, ApplyLog(map[], log).value);
  }

  // ----- the system invariant -----

  ghost predicate ReplicaOk(log: seq<Entry>, self: Replica) {
    && self.pos <= |log|
    && Tracks(log, self.pos, self.store)
    && (self.backup.Some? ==> self.backup.value.pos <= |log| && Tracks(log, self.backup.value.pos, self.backup.value.store))
  }

  ghost predicate Inv(a: System) {
    && JustifiedLog(a.log)
    && (forall e | e in a.pending :: Justified(a.log, e))
    && (forall r | 0 <= r < |a.replicas| :: ReplicaOk(a.log, a.replicas[r]))
  }

  /** Whatever store a replica has at the time, what it proposes is justified. */
  lemma {:induction false} PreparedIsJustified(log: seq<Entry>, n: nat, s: Store, req: Request, now: nat)
    requires n <= |log| && Tracks(log, n, s) && JustifiedLog(log)
    requires Prepare(s, req, now).Ok? && ParentKeyPresent(s, req)
    ensures Justified(log, Prepare(s, req, now).value)
  {
    PreparedPath(s, req, now);
    var p := req.path;
    if p in s && p != ROOT {
      WrittenHasParent(log, p);
    }
    assert !Written(log, ROOT) ==> GetInode(s, ROOT).isDirectory;
  }

  lemma {:induction false} InvNext(a: System, act: Action, b: System)
    requires Inv(a) && Next(a, act, b)
    ensures Inv(b)
  {
    match act {
      case Propose(r, req, now) =>
        PreparedIsJustified(a.log, a.replicas[r].pos, a.replicas[r].store, req, now);
      case Commit(e) =>
        InvCommit(a, e);
      case ApplyNext(r) =>
        TracksApply(a.log, a.replicas[r].pos, a.replicas[r].store);
      case SaveBackup(r) =>
      case Restart(r) =>
        TracksRestart(a.log, a.replicas[r].pos, a.replicas[r].store);
      case Join =>
        TracksEmpty(a.log);
    }
  }

  lemma {:induction false} InvCommit(a: System, e: Entry)
    requires Inv(a) && e in a.pending
    ensures Inv(a.(log := a.log + [e], pending := a.pending - multiset{e}))
  {
    JustifiedSnoc(a.log, e);
    forall f | f in a.pending ensures Justified(a.log + [e], f) {
      JustifiedLater(a.log, f, e);
    }
    forall r | 0 <= r < |a.replicas| ensures ReplicaOk(a.log + [e], a.replicas[r]) {
      var self := a.replicas[r];
      TracksCommit(a.log, self.pos, self.store, e);
      if self.backup.Some? {
        TracksCommit(a.log, self.backup.value.pos, self.backup.value.store, e);
      }
    }
  }

  lemma {:induction false} InvReachable(states: seq<System>, acts: seq<Action>, i: nat)
    requires Execution(states, acts) && i < |states|
    ensures Inv(states[i])
  {
    if i > 0 {
      InvReachable(states, acts, i - 1);
      assert Next(states[i - 1], acts[i - 1], states[i]);
      InvNext(states[i - 1], acts[i - 1], states[i]);
    }
  }

  // ----- main results -----

  /** No replica ever aborts on the parent assertion, in any interleaving. */
  lemma {:induction false} NoReplicaAborts(states: seq<System>, acts: seq<Action>, i: nat, r: nat)
    requires Execution(states, acts) && i < |states|
    requires r < |states[i].replicas| && states[i].replicas[r].pos < |states[i].log|
    ensures Apply(states[i].replicas[r].store, states[i].log[states[i].replicas[r].pos]).Some?
  {
    InvReachable(states, acts, i);
    ApplySucceeds(states[i].log, states[i].replicas[r].pos, states[i].replicas[r].store);
  }

  /** A replica that has caught up holds what applying the log once to an empty database gives. */
  lemma {:induction false} CaughtUpReplicaIsCanonical(states: seq<System>, acts: seq<Action>, i: nat, r: nat)
    requires Execution(states, acts) && i < |states|
    requires r < |states[i].replicas| && states[i].replicas[r].pos == |states[i].log|
    ensures ApplyLog(map[], states[i].log).Some?
    ensures SameUpToRootOrder(states[i].replicas[r].store, ApplyLog(map[], states[i].log).value)
    ensures Written(states[i].log, ROOT) ==> states[i].replicas[r].store == ApplyLog(map[], states[i].log).value
  {
    InvReachable(states, acts, i);
    var log := states[i].log;
    assert log[..|log|] == log;
    CanonicalTracks(log, |log|);
    TracksConverges(log, states[i].replicas[r].store, ApplyLog(map[], log).value);
  }

  /** Two replicas at the same position agree on every key the applied entries write,
      even while one of them is replaying over newer contents. */
  lemma {:induction false} SamePositionAgrees(states: seq<System>, acts: seq<Action>, i: nat, q: nat, r: nat, k: Path)
    requires Execution(states, acts) && i < |states|
    requires q < |states[i].replicas| && r < |states[i].replicas|
    requires states[i].replicas[q].pos == states[i].replicas[r].pos <= |states[i].log|
    requires Written(states[i].log[..states[i].replicas[r].pos], k)
    ensures k in states[i].replicas[q].store && k in states[i].replicas[r].store
    ensures states[i].replicas[q].store[k] == states[i].replicas[r].store[k]
  {
    InvReachable(states, acts, i);
    var a := states[i];
    assert ReplicaOk(a.log, a.replicas[q]) && ReplicaOk(a.log, a.replicas[r]);
    var applied := a.log[..a.replicas[r].pos];
    WholeWriteForgets(applied, k, None, None);
    assert Lookup(a.replicas[q].store, k) == Project(applied, k, None);
    assert Lookup(a.replicas[r].store, k) == Project(applied, k, None);
  }

  // ----- the condition on put cannot be dropped -----

  /** A put that is accepted can be followed by its put_ok without an abort exactly when
      the parent's key was present. */
  lemma {:induction false} PutThenPutOkIff(s: Store, p: Path, text: string, now: nat, sub: seq<string>, filesize: nat)
    requires Keyed(s) && Prepare(s, PutReq(p, text), now).Ok?
    ensures var put := Prepare(s, PutReq(p, text), now).value;
            && Apply(s, put).Some?
            && var t := Apply(s, put).value;
               && Prepare(t, PutOkReq(p, sub, filesize), now).Ok?
               && (Apply(t, Prepare(t, PutOkReq(p, sub, filesize), now).value).Some? <==> ParentReady(s, p))
  {
    PreparedPath(s, PutReq(p, text), now);
    if p != [] {
      assert |Parent(p)| != |p|;
    }
  }

  /** A put below a directory that was never made, then its put_ok: the replicas abort. */
  lemma {:induction false} PutWithoutParentAborts()
    ensures exists s: Store, e: Entry, f: Entry ::
              && Prepare(s, PutReq(["d", "f"], "RE<1,1>"), 1) == Ok(e)
              && Apply(s, e).Some?
              && Prepare(Apply(s, e).value, PutOkReq(["d", "f"], [], 0), 1) == Ok(f)
              && Apply(Apply(s, e).value, f) == None
  {
    var s: Store := map[];
    var p: Path := ["d", "f"];
    assert StorageText.FromString("RE<1,1>").Ok? by { StorageText.SmallestType(); }
    var put := Prepare(s, PutReq(p, "RE<1,1>"), 1);
    PutThenPutOkIff(s, p, "RE<1,1>", 1, [], 0);
    assert Parent(p) == ["d"];
    var e := put.value;
    var f := Prepare(Apply(s, e).value, PutOkReq(p, [], 0), 1).value;
    assert Prepare(s, PutReq(p, "RE<1,1>"), 1) == Ok(e);
    assert Prepare(Apply(s, e).value, PutOkReq(p, [], 0), 1) == Ok(f);
  }
}
