/** What a log does to one key. Every entry changes a key as a function of that
    key's old value alone, and a whole write forgets the old value. */
module Projection {
  import opened Results
  import opened Inodes
  import opened Metadata

  function Lookup(s: Store, k: Path): Option<Inode> {
    if k in s then Some(s[k]) else None
  }

  /** mkdir, put and rm replace the inode of their target; put_ok edits it. */
  predicate Whole(e: Entry) { e.op == OpMkdir || e.op == OpPut || e.op == OpRm }

  /** The entry edits the listing of `k`, its target's parent. */
  predicate Edits(e: Entry, k: Path) {
    (e.op == OpMkdir || e.op == OpPutOk || e.op == OpRm) && k == Parent(e.inode.path) && k != e.inode.path
  }

  function Edited(e: Entry, sub: seq<string>): seq<string> {
    if e.op == OpRm then Without(sub, Filename(e.inode)) else With(sub, Filename(e.inode))
  }

  /** The effect of one entry on the value held under key `k`. */
  function StepKey(e: Entry, k: Path, v: Option<Inode>): Option<Inode> {
    if e.op != OpUnknown && k == e.inode.path then
      if Whole(e) then Some(e.inode) else
        var found := if v.Some? then v.value else if k == ROOT then DefaultDir(ROOT) else Blank(k);
        Some(Unlock(found).(sub := e.inode.sub, filesize := e.inode.filesize))
    else if Edits(e, k) then
      var found := if v.Some? then v.value else DefaultDir(ROOT);
      Some(found.(sub := Edited(e, found.sub)))
    else v
  }

  function Project(log: seq<Entry>, k: Path, v: Option<Inode>): Option<Inode> {
    if log == [] then v else StepKey(log[|log| - 1], k, Project(log[..|log| - 1], k, v))
  }

  /** Applying an entry acts on each key separately. */
  lemma {:induction false} ApplyProjects(s: Store, e: Entry, k: Path)
    requires Keyed(s) && Apply(s, e).Some?
    ensures Lookup(Apply(s, e).value, k) == StepKey(e, k, Lookup(s, k))
  {
  }

  lemma {:induction false} LogProjects(s: Store, log: seq<Entry>, k: Path)
    requires Keyed(s) && ApplyLog(s, log).Some?
    ensures Lookup(ApplyLog(s, log).value, k) == Project(log, k, Lookup(s, k))
  {
    if log != [] {
      var init := log[..|log| - 1];
      LogProjects(s, init, k);
      ApplyLogKeepsKeyed(s, init);
      ApplyProjects(ApplyLog(s, init).value, log[|log| - 1], k);
    }
  }

  // ----- an entry in plain terms -----

  /** The process aborts exactly when an entry that edits a listing finds no key for the parent, and that is not the root. */
  lemma {:induction false} AbortsIff(s: Store, e: Entry)
    ensures Apply(s, e).None? <==>
              (e.op == OpMkdir || e.op == OpPutOk || e.op == OpRm) && Parent(e.inode.path) != [] && Parent(e.inode.path) !in s
  {
  }

  /** What any entry leaves under its target's key: MKDIR, PUT and RM the inode they carry; PUTOK the stored inode, valid or
      not, with the new blocks and size and without a lease. */
  lemma {:induction false} TargetAfter(s: Store, e: Entry)
    requires Keyed(s) && Apply(s, e).Some? && e.op != OpUnknown && e.inode.path != []
    ensures var t, p := Apply(s, e).value, e.inode.path;
            && p in t
            && (e.op != OpPutOk ==> t[p] == e.inode)
            && (e.op == OpPutOk ==>
                  var stored := if p in s then s[p] else Inode(p, false, 0, None, [], false, 0);
                  t[p] == stored.(ddlLock := 0, sub := e.inode.sub, filesize := e.inode.filesize))
  {
  }

  /** What it leaves under the parent's key: the inode that was there, or a new root, with the name added at the end or
      taken out; PUT leaves the parent alone. */
  lemma {:induction false} ParentAfter(s: Store, e: Entry)
    requires Keyed(s) && Apply(s, e).Some? && e.inode.path != []
    requires e.op == OpMkdir || e.op == OpPutOk || e.op == OpRm
    ensures var t, d := Apply(s, e).value, Parent(e.inode.path);
            var before := if d in s then s[d] else Inode([], true, 0, None, [], true, 0);
            var name := Base(e.inode.path) + if e.inode.isDirectory then "/" else "";
            && d in t && t[d].(sub := []) == before.(sub := [])
            && (e.op != OpRm ==> t[d].sub == if name in before.sub then before.sub else before.sub + [name])
            && (e.op == OpRm ==> t[d].sub == Without(before.sub, name))
  {
    var p := e.inode.path;
    assert |Parent(p)| == |p| - 1;
  }

  /** And nothing else changes. */
  lemma {:induction false} OthersAfter(s: Store, e: Entry, k: Path)
    requires Keyed(s) && Apply(s, e).Some?
    requires e.op == OpUnknown || (k != e.inode.path && (e.op == OpPut || k != Parent(e.inode.path)))
    ensures Lookup(Apply(s, e).value, k) == Lookup(s, k)
  {
  }

  // ----- keys that a log writes -----

  /** Some entry of the log replaces the inode under `k`. */
  ghost predicate Written(log: seq<Entry>, k: Path) {
    exists i :: 0 <= i < |log| && Whole(log[i]) && log[i].inode.path == k
  }

  lemma {:induction false} WrittenSnoc(log: seq<Entry>, e: Entry, k: Path)
    ensures Written(log + [e], k) <==> Written(log, k) || (Whole(e) && e.inode.path == k)
  {
    var l := log + [e];
    if Written(log, k) {
      var i :| 0 <= i < |log| && Whole(log[i]) && log[i].inode.path == k;
      assert l[i] == log[i];
    }
    if Whole(e) && e.inode.path == k {
      assert l[|log|] == e;
    }
  }

  lemma {:induction false} WrittenPrefix(log: seq<Entry>, n: nat, k: Path)
    requires n <= |log| && Written(log[..n], k)
    ensures Written(log, k)
  {
    var i :| 0 <= i < n && Whole(log[..n][i]) && log[..n][i].inode.path == k;
    assert log[i] == log[..n][i];
  }

  /** The last whole write forgets everything before it: what a key held first no longer matters. */
  lemma {:induction false} WholeWriteForgets(log: seq<Entry>, k: Path, v: Option<Inode>, w: Option<Inode>)
    requires Written(log, k)
    ensures Project(log, k, v) == Project(log, k, w) && Project(log, k, v).Some?
  {
    var last := log[|log| - 1];
    if !(Whole(last) && last.inode.path == k) {
      var init := log[..|log| - 1];
      assert log == init + [last];
      WrittenSnoc(init, last, k);
      WholeWriteForgets(init, k, v, w);
    }
  }
}
