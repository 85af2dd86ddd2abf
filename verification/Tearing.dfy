/** When a removal can harm another file: rm does not look whether a directory is empty, and its tombstone
    keeps collecting the entries of children that are still alive. */
module Tearing {
  import opened Results
  import opened Inodes
  import opened Metadata
  import opened Namespace
  import StorageText

  /** Some file shows a block list or size that is not its latest put_ok's. */
  ghost predicate Torn(a: Served) { exists p :: !UntornAt(a.store, a.ledger, p) }

  ghost predicate TearsBy(a: Served, evs: seq<Event>) {
    RespectfulFrom(a, evs) && AfterFrom(a, evs).Some? && Torn(AfterFrom(a, evs).value)
  }

  /** Requests that respect the guard of the listing can tear a file from here. */
  ghost predicate CanTear(a: Served) { exists evs :: TearsBy(a, evs) }

  lemma {:induction false} CompleteCannotTear(a: Served)
    requires Complete(a.store, a.ledger)
    ensures !CanTear(a)
  {
    forall evs ensures !TearsBy(a, evs) {
      if RespectfulFrom(a, evs) {
        RunKeepsCompleteFrom(a, evs);
        var b := AfterFrom(a, evs).value;
        forall p ensures UntornAt(b.store, b.ledger, p) {
          assert FineAt(b.store, b.ledger, p);
        }
      }
    }
  }

  lemma {:induction false} AfterFromCons(a: Served, ev: Event, b: Served, evs: seq<Event>)
    requires Step(a, ev) == Some(b)
    ensures AfterFrom(a, [ev] + evs) == AfterFrom(b, evs)
  {
    var all := [ev] + evs;
    if evs == [] {
      assert all[..0] == [];
    } else {
      assert all[..|evs|] == [ev] + evs[..|evs| - 1];
      AfterFromCons(a, ev, b, evs[..|evs| - 1]);
    }
  }

  lemma {:induction false} TearsAfter(a: Served, ev: Event, b: Served, evs: seq<Event>)
    requires Accepted(a.store, ev) ==> ListingGuard(a.store, ev.req)
    requires Step(a, ev) == Some(b) && TearsBy(b, evs)
    ensures TearsBy(a, [ev] + evs)
  {
    var all := [ev] + evs;
    AfterFromCons(a, ev, b, evs);
    forall i {:trigger all[i]} | 0 <= i < |all| && AfterFrom(a, all[..i]).Some? && Accepted(AfterFrom(a, all[..i]).value.store, all[i])
      ensures ListingGuard(AfterFrom(a, all[..i]).value.store, all[i].req)
    {
      if i > 0 {
        assert all[..i] == [ev] + evs[..i - 1] && all[i] == evs[i - 1];
        AfterFromCons(a, ev, b, evs[..i - 1]);
      }
    }
  }

  // ----- single steps -----

  /** A put on a removed path makes a file of whatever its inode still lists. */
  lemma {:induction false} ServedPutOnRemoved(s: Store, p: Path, text: string)
    requires Keyed(s) && p != ROOT && !Live(s, p) && GetInode(s, p).ddlLock == 0 && StorageText.FromString(text).Ok?
    ensures Accepted(s, Event(1, PutReq(p, text)))
    ensures var t := Serve(s, Event(1, PutReq(p, text))).value;
            && Serve(s, Event(1, PutReq(p, text))).Some? && Keyed(t)
            && (forall q {:trigger GetInode(t, q)} | q != p :: GetInode(t, q) == GetInode(s, q))
            && LiveFile(t, p) && GetInode(t, p).sub == GetInode(s, p).sub
  {
  }

  lemma {:induction false} SomeType() returns (text: string)
    ensures StorageText.FromString(text).Ok?
  {
    text := "RE<1,1>";
    StorageText.SmallestType();
  }

  /** A directory of a sound namespace, just removed. */
  ghost predicate Removed(s: Store, d: Path) {
    d != ROOT && Keyed(s) && d in s && GetInode(s, d) == Blank(d) && LiveDir(s, Parent(d))
  }

  lemma {:induction false} RemoveFromComplete(a: Served, d: Path) returns (b: Served)
    requires Complete(a.store, a.ledger) && d != ROOT && Live(a.store, d)
    ensures Accepted(a.store, Event(1, RmReq(d))) && Step(a, Event(1, RmReq(d))) == Some(b)
    ensures Removed(b.store, d) && d !in b.ledger
    ensures forall q {:trigger GetInode(b.store, q)} | q != d && q != Parent(d) :: GetInode(b.store, q) == GetInode(a.store, q)
    ensures forall q | q in a.store :: q in b.store
  {
    var ev := Event(1, RmReq(d));
    LiveParentReady(a.store, a.ledger, d);
    ServedRm(a.store, ev);
    ServeKeepsKeyed(a.store, ev);
    assert FineAt(a.store, a.ledger, d);
    ChildOfParent(d);
    b := Step(a, ev).value;
  }

  // ----- a file below the removed directory -----

  /** Publish the orphaned file, put a file where the directory was: it shows a block nobody published for it. */
  lemma {:induction false} OrphanFileTears(a: Served, c: Path)
    requires c != ROOT && Removed(a.store, Parent(c)) && Parent(c) !in a.ledger && LiveFile(a.store, c)
    ensures CanTear(a)
  {
    var d := Parent(c);
    ChildOfParent(c);
    ChildOfParent(d);
    var publish := Event(1, PutOkReq(c, [], 0));
    ServedPutOk(a.store, publish);
    ServeKeepsKeyed(a.store, publish);
    var b := Step(a, publish).value;
    assert GetInode(b.store, d) == Blank(d).(sub := With([], Base(c)));
    assert GetInode(b.store, Parent(d)) == GetInode(a.store, Parent(d));
    PutShowsEntries(b, d);
    CanTearAfter(a, publish);
  }

  /** A put where a removed directory lists something. */
  lemma {:induction false} PutShowsEntries(b: Served, d: Path)
    requires d != ROOT && Keyed(b.store) && !Live(b.store, d) && GetInode(b.store, d).ddlLock == 0 && GetInode(b.store, d).sub != []
    requires LiveDir(b.store, Parent(d)) && d !in b.ledger
    ensures CanTear(b)
  {
    var text := SomeType();
    var put := Event(1, PutReq(d, text));
    ServedPutOnRemoved(b.store, d, text);
    var e := Step(b, put).value;
    assert !UntornAt(e.store, e.ledger, d);
    assert TearsBy(e, []);
    CanTearAfter(b, put);
  }

  // ----- a directory below the removed directory -----

  /** A file put and published where a directory was removed. */
  lemma {:induction false} PutAndPublish(a: Served, d: Path, x: string) returns (e: Served)
    requires Removed(a.store, d)
    ensures Keyed(e.store) && LiveFile(e.store, d) && GetInode(e.store, d).sub == [x]
    ensures d in e.ledger && e.ledger[d] == Published([x], 1)
    ensures forall q {:trigger GetInode(e.store, q)} | q != d && q != Parent(d) :: GetInode(e.store, q) == GetInode(a.store, q)
    ensures CanTear(e) ==> CanTear(a)
  {
    ChildOfParent(d);
    var text := SomeType();
    var put, publish := Event(1, PutReq(d, text)), Event(1, PutOkReq(d, [x], 1));
    ServedPutOnRemoved(a.store, d, text);
    var b := Step(a, put).value;
    assert GetInode(b.store, Parent(d)) == GetInode(a.store, Parent(d));
    ServedPutOk(b.store, publish);
    ServeKeepsKeyed(b.store, publish);
    e := Step(b, publish).value;
    CanTearAfter(b, publish);
    CanTearAfter(a, put);
  }

  lemma {:induction false} CanTearAfter(a: Served, ev: Event)
    requires Accepted(a.store, ev) ==> ListingGuard(a.store, ev.req)
    requires Step(a, ev).Some?
    ensures CanTear(Step(a, ev).value) ==> CanTear(a)
  {
    if CanTear(Step(a, ev).value) {
      var evs :| TearsBy(Step(a, ev).value, evs);
      TearsAfter(a, ev, Step(a, ev).value, evs);
    }
  }

  /** Put and publish a file where the directory was, then remove the orphaned directory: the file loses a block. */
  lemma {:induction false} OrphanDirTears(a: Served, c: Path)
    requires c != ROOT && Removed(a.store, Parent(c)) && LiveDir(a.store, c) && NoLiveChild(a.store, c)
    ensures CanTear(a)
  {
    ChildOfParent(c);
    ChildOfParent(Parent(c));
    var e := PutAndPublish(a, Parent(c), Base(c));
    assert GetInode(e.store, c) == GetInode(a.store, c);
    StillChildless(a.store, e.store, c);
    LosesBlock(e, c);
    CanTearAfter(e, Event(1, RmReq(c)));
  }

  lemma {:induction false} LosesBlock(e: Served, c: Path)
    requires c != ROOT && Parent(c) != ROOT && Keyed(e.store) && LiveDir(e.store, c) && LiveFile(e.store, Parent(c))
    requires GetInode(e.store, Parent(c)).sub == [Base(c)]
    requires Parent(c) in e.ledger && e.ledger[Parent(c)] == Published([Base(c)], 1)
    ensures Step(e, Event(1, RmReq(c))).Some? && TearsBy(Step(e, Event(1, RmReq(c))).value, [])
  {
    var d := Parent(c);
    ChildOfParent(c);
    ServedRm(e.store, Event(1, RmReq(c)));
    assert [Base(c)][1..] == [];
    assert Without([Base(c)], Base(c)) == [];
    var f := Step(e, Event(1, RmReq(c))).value;
    assert GetInode(f.store, d) == GetInode(e.store, d).(sub := []);
    assert !UntornAt(f.store, f.ledger, d);
  }

  /** Nothing below `c` came to life. */
  lemma {:induction false} StillChildless(s: Store, t: Store, c: Path)
    requires NoLiveChild(s, c)
    requires c != ROOT
    requires forall q {:trigger GetInode(t, q)} | q != Parent(c) && q != Parent(Parent(c)) :: GetInode(t, q) == GetInode(s, q)
    ensures NoLiveChild(t, c)
  {
    forall p | p in t && t[p].valid && p != ROOT ensures Parent(p) != c {
      if p != Parent(c) && p != Parent(Parent(c)) {
        assert GetInode(t, p) == GetInode(s, p);
      }
    }
  }

  // ----- emptying a directory, deepest paths first -----

  predicate Under(c: Path, p: Path) { |c| < |p| && p[..|c|] == c }

  ghost function Below(s: Store, c: Path): set<Path> { set p | p in s && s[p].valid && Under(c, p) }

  ghost predicate ParentsPresent(s: Store, c: Path) { forall p | p in Below(s, c) :: Parent(p) in s }

  lemma {:induction false} Longest(ps: set<Path>) returns (p: Path)
    requires ps != {}
    ensures p in ps && forall q | q in ps :: |q| <= |p|
  {
    p :| p in ps;
    if ps != {p} {
      var q := Longest(ps - {p});
      if |q| > |p| {
        p := q;
      }
    }
  }

  lemma {:induction false} UnderChild(c: Path, p: Path, q: Path)
    requires (p == c || Under(c, p)) && q != ROOT && Parent(q) == p
    ensures Under(c, q) && |q| == |p| + 1
  {
    assert q[..|c|] == q[..|p|][..|c|];
  }

  lemma {:induction false} DeepestIsChildless(s: Store, c: Path, p: Path)
    requires p in Below(s, c) && forall q | q in Below(s, c) :: |q| <= |p|
    ensures NoLiveChild(s, p)
  {
    forall q | q in s && s[q].valid && q != ROOT ensures Parent(q) != p {
      if Parent(q) == p {
        UnderChild(c, p, q);
      }
    }
  }

  lemma {:induction false} NothingBelow(s: Store, c: Path)
    requires Below(s, c) == {}
    ensures NoLiveChild(s, c)
  {
    forall q | q in s && s[q].valid && q != ROOT ensures Parent(q) != c {
      assert q !in Below(s, c);
      if Parent(q) == c {
        UnderChild(c, c, q);
      }
    }
  }

  /** Outside `c` and what lies under it nothing changed, and `c` is what it was up to its listing. */
  ghost predicate Framed(s: Store, t: Store, c: Path) {
    && (forall q {:trigger GetInode(t, q)} | q != c && !Under(c, q) :: GetInode(t, q) == GetInode(s, q))
    && GetInode(t, c) == GetInode(s, c).(sub := GetInode(t, c).sub)
    && (forall q | q in s :: q in t)
  }

  lemma {:induction false} UnderParent(c: Path, p: Path)
    requires Under(c, p)
    ensures p != ROOT && (Parent(p) == c || Under(c, Parent(p))) && Parent(p) != p && p != c
  {
    assert p[..|p| - 1][..|c|] == p[..|c|];
  }

  lemma {:induction false} RemoveDeepest(a: Served, c: Path, p: Path) returns (b: Served)
    requires Keyed(a.store) && ParentsPresent(a.store, c) && p in Below(a.store, c) && NoLiveChild(a.store, p)
    ensures Step(a, Event(1, RmReq(p))) == Some(b) && ListingGuard(a.store, RmReq(p))
    ensures Keyed(b.store) && Framed(a.store, b.store, c)
    ensures Below(b.store, c) == Below(a.store, c) - {p} && ParentsPresent(b.store, c)
  {
    var ev := Event(1, RmReq(p));
    UnderParent(c, p);
    ServedRm(a.store, ev);
    ServeKeepsKeyed(a.store, ev);
    b := Step(a, ev).value;
    BelowShrinks(a.store, b.store, c, p);
  }

  lemma {:induction false} BelowShrinks(s: Store, t: Store, c: Path, p: Path)
    requires p in Below(s, c) && Parent(p) in s && Parent(p) != p
    requires (forall q | q in s :: q in t) && (forall q | q in t :: q in s || q == p)
    requires EditedTo(s, t, Parent(p), Without(Listing(s, Parent(p)), Base(p)), p, Blank(p))
    ensures Below(t, c) == Below(s, c) - {p}
  {
    forall q ensures q in Below(t, c) <==> q in Below(s, c) - {p} {
      if q in t && Under(c, q) {
        assert GetInode(t, q) == t[q];
      }
    }
  }

  /** Removals that respect the guard leave a directory without live children, and everything outside it as it was. */
  lemma {:induction false} EmptyThenTear(a: Served, c: Path)
    requires c != ROOT && Removed(a.store, Parent(c)) && LiveDir(a.store, c) && ParentsPresent(a.store, c)
    ensures CanTear(a)
    decreases |Below(a.store, c)|
  {
    if Below(a.store, c) == {} {
      NothingBelow(a.store, c);
      OrphanDirTears(a, c);
    } else {
      var p := Longest(Below(a.store, c));
      DeepestIsChildless(a.store, c, p);
      var b := RemoveDeepest(a, c, p);
      assert Removed(b.store, Parent(c)) && LiveDir(b.store, c) by { StillRemoved(a.store, b.store, c); }
      EmptyThenTear(b, c);
      CanTearAfter(a, Event(1, RmReq(p)));
    }
  }

  lemma {:induction false} StillRemoved(s: Store, t: Store, c: Path)
    requires c != ROOT && Removed(s, Parent(c)) && LiveDir(s, c) && Framed(s, t, c) && Keyed(t)
    ensures Removed(t, Parent(c)) && LiveDir(t, c)
  {
    ChildOfParent(c);
    ChildOfParent(Parent(c));
    assert GetInode(t, Parent(c)) == GetInode(s, Parent(c));
    assert GetInode(t, Parent(Parent(c))) == GetInode(s, Parent(Parent(c)));
  }

  lemma {:induction false} OrphansHaveParents(a: Served, d: Path, b: Served, c: Path)
    requires Complete(a.store, a.ledger) && c != ROOT && Parent(c) == d && d != ROOT
    requires forall q {:trigger GetInode(b.store, q)} | q != d && q != Parent(d) :: GetInode(b.store, q) == GetInode(a.store, q)
    requires forall q | q in a.store :: q in b.store
    ensures ParentsPresent(b.store, c)
  {
    forall p | p in Below(b.store, c) ensures Parent(p) in b.store {
      UnderParent(c, p);
      assert GetInode(b.store, p) == GetInode(a.store, p);
      assert FineAt(a.store, a.ledger, p);
    }
  }

  // ----- main result -----

  lemma {:induction false} OrphanTears(a: Served, d: Path, b: Served, c: Path)
    requires Complete(a.store, a.ledger) && d != ROOT && Removed(b.store, d) && d !in b.ledger
    requires forall q {:trigger GetInode(b.store, q)} | q != d && q != Parent(d) :: GetInode(b.store, q) == GetInode(a.store, q)
    requires forall q | q in a.store :: q in b.store
    requires c != ROOT && Parent(c) == d && Live(a.store, c)
    ensures CanTear(b)
  {
    assert GetInode(b.store, c) == GetInode(a.store, c) by {
      ChildOfParent(c);
      ChildOfParent(d);
    }
    if LiveFile(b.store, c) {
      OrphanFileTears(b, c);
    } else {
      assert ParentsPresent(b.store, c) by { OrphansHaveParents(a, d, b, c); }
      EmptyThenTear(b, c);
    }
  }

  /** After the removal of a directory of a sound namespace, respectful requests can tear a file if and only if
      the directory still had a live child. */
  lemma {:induction false} RemovalTearsIff(a: Served, d: Path)
    requires Complete(a.store, a.ledger) && d != ROOT && LiveDir(a.store, d)
    ensures Step(a, Event(1, RmReq(d))).Some?
    ensures CanTear(Step(a, Event(1, RmReq(d))).value) <==> !NoLiveChild(a.store, d)
  {
    var b := RemoveFromComplete(a, d);
    if NoLiveChild(a.store, d) {
      CompleteKeptIff(a.store, a.ledger, Event(1, RmReq(d)));
      CompleteCannotTear(b);
    } else {
      var c :| c in a.store && a.store[c].valid && c != ROOT && Parent(c) == d;
      OrphanTears(a, d, b, c);
    }
  }
}
