/** The serial model: a request is checked, proposed and applied in one step.
    The namespace keeps its shape exactly under the requests that respect it. */
module Namespace {
  import opened Results
  import opened Inodes
  import opened Metadata
  import opened Projection

  datatype Event = Event(now: nat, req: Request)

  predicate Accepted(s: Store, ev: Event) {
    Prepare(s, ev.req, ev.now).Ok?
  }

  /** One request served to the end: a rejected one changes nothing, `None` is an abort. */
  function Serve(s: Store, ev: Event): Option<Store> {
    match Prepare(s, ev.req, ev.now)
    case Err(_) => Some(s)
    case Ok(e) => Apply(s, e)
  }

  // ----- what the store says about a path -----

  predicate Live(s: Store, p: Path) { p == ROOT || GetInode(s, p).valid }

  predicate LiveDir(s: Store, p: Path) { Live(s, p) && GetInode(s, p).isDirectory }

  predicate LiveFile(s: Store, p: Path) { Live(s, p) && !GetInode(s, p).isDirectory }

  function Listing(s: Store, d: Path): seq<string> { GetInode(s, d).sub }

  /** What a file's last put_ok published: its block list and its size. */
  datatype Published = Published(sub: seq<string>, filesize: nat)

  /** The latest put_ok of every path since its last rm. */
  type Ledger = map<Path, Published>

  function Recorded(l: Ledger, p: Path): Published {
    if p in l then l[p] else Published([], 0)
  }

  /** The ledger after a request, kept by the requests alone. */
  function Record(l: Ledger, s: Store, ev: Event): Ledger {
    if !Accepted(s, ev) then l
    else match ev.req
      case PutOkReq(p, sub, filesize) => l[p := Published(sub, filesize)]
      case RmReq(p) => l - {p}
      case _ => l
  }

  // ----- invariants, path by path -----

  /** Removed paths are blank, live ones hang below a live directory, listings have no duplicate. */
  ghost predicate ShapeAt(s: Store, p: Path) {
    var i := GetInode(s, p);
    && (!i.valid ==> i == Blank(p))
    && (i.valid && p != ROOT ==> LiveDir(s, Parent(p)))
    && (i.isDirectory ==> NoDup(i.sub))
  }

  /** A directory is in its parent's listing. */
  predicate DirListedAt(s: Store, p: Path) {
    p != ROOT && LiveDir(s, p) ==> Base(p) + "/" in Listing(s, Parent(p))
  }

  /** A file with a put_ok since its last rm is in its parent's listing. */
  predicate FileListedAt(s: Store, l: Ledger, p: Path) {
    p in l ==> p != ROOT && LiveFile(s, p) && Base(p) in Listing(s, Parent(p))
  }

  /** A file's block list and size are those of its latest put_ok, or nothing. */
  predicate UntornAt(s: Store, l: Ledger, p: Path) {
    LiveFile(s, p) ==> Published(GetInode(s, p).sub, GetInode(s, p).filesize) == Recorded(l, p)
  }

  ghost predicate FineAt(s: Store, l: Ledger, p: Path) {
    ShapeAt(s, p) && DirListedAt(s, p) && FileListedAt(s, l, p) && UntornAt(s, l, p)
  }

  predicate RootIsDir(s: Store) { GetInode(s, ROOT).isDirectory && GetInode(s, ROOT).valid }

  /** Nothing that should be listed is missing, and nothing is listed twice. */
  ghost predicate Complete(s: Store, l: Ledger) {
    Keyed(s) && RootIsDir(s) && forall p :: FineAt(s, l, p)
  }

  predicate IsDirEntry(x: string) { x != "" && x[|x| - 1] == '/' }

  function EntryName(x: string): string { if IsDirEntry(x) then x[..|x| - 1] else x }

  /** A listed entry stands for a path of its kind, a file for one with a put_ok since its last rm. */
  predicate Backed(s: Store, l: Ledger, d: Path, x: string) {
    && IsName(EntryName(x))
    && var n: Name := EntryName(x);
       if IsDirEntry(x) then LiveDir(s, d + [n]) else LiveFile(s, d + [n]) && d + [n] in l
  }

  predicate ExactAt(s: Store, l: Ledger, d: Path, x: string) {
    LiveDir(s, d) && x in Listing(s, d) ==> Backed(s, l, d, x)
  }

  ghost predicate Exact(s: Store, l: Ledger) {
    forall d, x :: ExactAt(s, l, d, x)
  }

  ghost predicate Tree(s: Store, l: Ledger) { Complete(s, l) && Exact(s, l) }

  // ----- the conditions on requests -----

  ghost predicate NoLiveChild(s: Store, d: Path) {
    forall p | p in s && s[p].valid && p != ROOT :: Parent(p) != d
  }

  /** mkdir and put go below a live directory; rm takes a file or a directory without live children. */
  ghost predicate ListingGuard(s: Store, req: Request) {
    match req
    case MkdirReq(p) => LiveDir(s, Parent(p))
    case PutReq(p, _) => LiveDir(s, Parent(p))
    case RmReq(p) => p != ROOT && (LiveDir(s, p) ==> NoLiveChild(s, p))
    case PutOkReq(_, _, _) => true
    case UpdateLockReq(_) => true
  }

  /** As ListingGuard, and rm takes files only. */
  predicate TreeGuard(s: Store, req: Request) {
    match req
    case MkdirReq(p) => LiveDir(s, Parent(p))
    case PutReq(p, _) => LiveDir(s, Parent(p))
    case RmReq(p) => p != ROOT && !LiveDir(s, p)
    case PutOkReq(_, _, _) => true
    case UpdateLockReq(_) => true
  }

  // ----- facts about paths -----

  lemma {:induction false} ParentOfChild(d: Path, n: Name)
    ensures Parent(d + [n]) == d && Base(d + [n]) == n && d + [n] != ROOT
  {
  }

  lemma {:induction false} ChildOfParent(p: Path)
    requires p != ROOT
    ensures Parent(p) + [p[|p| - 1]] == p && Parent(p) != p
  {
  }

  /** A file entry and a directory entry never look alike. */
  lemma {:induction false} EntriesDiffer(p: Path, q: Path)
    requires p != ROOT && q != ROOT
    ensures Base(p) != Base(q) + "/"
    ensures Base(p) == Base(q) && Parent(p) == Parent(q) ==> p == q
    ensures Base(p) + "/" == Base(q) + "/" ==> Base(p) == Base(q)
    ensures !IsDirEntry(Base(p)) && EntryName(Base(p)) == Base(p)
    ensures IsDirEntry(Base(p) + "/") && EntryName(Base(p) + "/") == Base(p)
  {
    ChildOfParent(p);
    ChildOfParent(q);
    var a, b := Base(p) + "/", Base(q) + "/";
    assert a[..|a| - 1] == Base(p) && b[..|b| - 1] == Base(q);
    assert b[|b| - 1] == '/';
    assert p[|p| - 1][|p[|p| - 1]| - 1] in p[|p| - 1];
  }

  // ----- each request, served -----

  /** `t` is `s` with the listing of `d` replaced by `sub`, and then the inode `i` written at `p`. */
  ghost predicate EditedTo(s: Store, t: Store, d: Path, sub: seq<string>, p: Path, i: Inode) {
    forall q {:trigger GetInode(t, q)} :: GetInode(t, q) ==
      if q == p then i else if q == d then GetInode(s, d).(sub := sub) else GetInode(s, q)
  }

  lemma {:induction false} ServedMkdir(s: Store, ev: Event)
    requires Keyed(s) && Accepted(s, ev) && ev.req.MkdirReq?
    ensures var p := ev.req.path;
            && p != ROOT && !Live(s, p) && Live(s, Parent(p))
            && Serve(s, ev).Some?
            && EditedTo(s, Serve(s, ev).value, Parent(p), With(Listing(s, Parent(p)), Base(p) + "/"), p, DefaultDir(p))
  {
  }

  lemma {:induction false} ServedRm(s: Store, ev: Event)
    requires Keyed(s) && Accepted(s, ev) && ev.req.RmReq? && ParentReady(s, ev.req.path)
    ensures var p := ev.req.path;
            && Live(s, p)
            && Serve(s, ev).Some?
            && EditedTo(s, Serve(s, ev).value, Parent(p), Without(Listing(s, Parent(p)), Base(p)), p, Blank(p))
  {
    assert Base(ev.req.path) + "" == Base(ev.req.path);
  }

  lemma {:induction false} ServedPutOk(s: Store, ev: Event)
    requires Keyed(s) && Accepted(s, ev) && ev.req.PutOkReq? && ev.req.path != ROOT && ParentReady(s, ev.req.path)
    ensures var p := ev.req.path;
            && LiveFile(s, p)
            && Serve(s, ev).Some?
            && EditedTo(s, Serve(s, ev).value, Parent(p), With(Listing(s, Parent(p)), Base(p)), p,
                      Unlock(GetInode(s, p)).(sub := ev.req.sub, filesize := ev.req.filesize))
  {
    assert Base(ev.req.path) + "" == Base(ev.req.path);
  }

  /** In a complete namespace a live path's parent is in the store, and the root is no file. */
  lemma {:induction false} LiveParentReady(s: Store, l: Ledger, p: Path)
    requires Complete(s, l)
    ensures Live(s, p) ==> ParentReady(s, p)
    ensures LiveFile(s, p) ==> p != ROOT
  {
    assert FineAt(s, l, p);
  }

  /** put and update_lock replace one inode; a live one keeps all but its deadline and storage type. */
  ghost predicate Rewritten(s: Store, t: Store, p: Path, i: Inode) {
    && EditedTo(s, t, p, Listing(s, p), p, i)
    && i.path == p && i.valid
    && i == (if Live(s, p) then GetInode(s, p) else Blank(p).(valid := true)).(ddlLock := i.ddlLock, storage := i.storage)
  }

  lemma {:induction false} ServedWrite(s: Store, l: Ledger, ev: Event) returns (i: Inode)
    requires Complete(s, l) && Accepted(s, ev) && (ev.req.PutReq? || ev.req.UpdateLockReq?)
    ensures Serve(s, ev).Some? && Rewritten(s, Serve(s, ev).value, ev.req.path, i)
    ensures ev.req.PutReq? ==> !i.isDirectory && ev.req.path != ROOT
    ensures ev.req.UpdateLockReq? ==> Live(s, ev.req.path)
  {
    i := Prepare(s, ev.req, ev.now).value.inode;
    assert FineAt(s, l, ev.req.path);
  }

  // ----- requests that keep the listing complete -----

  lemma {:induction false} MkdirKeepsShape(s: Store, l: Ledger, p: Path, t: Store, q: Path)
    requires Complete(s, l) && p != ROOT && !Live(s, p) && LiveDir(s, Parent(p))
    requires EditedTo(s, t, Parent(p), With(Listing(s, Parent(p)), Base(p) + "/"), p, DefaultDir(p))
    ensures ShapeAt(t, q)
  {
    ChildOfParent(p);
    assert FineAt(s, l, q) && FineAt(s, l, Parent(p));
    WithContents(Listing(s, Parent(p)), Base(p) + "/");
  }

  lemma {:induction false} MkdirKeepsListed(s: Store, l: Ledger, p: Path, t: Store, q: Path)
    requires Complete(s, l) && p != ROOT && !Live(s, p) && LiveDir(s, Parent(p))
    requires EditedTo(s, t, Parent(p), With(Listing(s, Parent(p)), Base(p) + "/"), p, DefaultDir(p))
    ensures DirListedAt(t, q) && FileListedAt(t, l, q) && UntornAt(t, l, q)
  {
    ChildOfParent(p);
    assert FineAt(s, l, q) && FineAt(s, l, p);
    WithContents(Listing(s, Parent(p)), Base(p) + "/");
  }

  lemma {:induction false} MkdirKeeps(s: Store, l: Ledger, p: Path, t: Store, q: Path)
    requires Complete(s, l) && p != ROOT && !Live(s, p) && LiveDir(s, Parent(p))
    requires EditedTo(s, t, Parent(p), With(Listing(s, Parent(p)), Base(p) + "/"), p, DefaultDir(p))
    ensures FineAt(t, l, q)
  {
    MkdirKeepsShape(s, l, p, t, q);
    MkdirKeepsListed(s, l, p, t, q);
  }

  lemma {:induction false} MkdirKeepsExact(s: Store, l: Ledger, p: Path, t: Store, c: Path, y: string)
    requires Complete(s, l) && Exact(s, l) && p != ROOT && !Live(s, p) && LiveDir(s, Parent(p))
    requires EditedTo(s, t, Parent(p), With(Listing(s, Parent(p)), Base(p) + "/"), p, DefaultDir(p))
    ensures ExactAt(t, l, c, y)
  {
    ChildOfParent(p);
    if LiveDir(t, c) && y in Listing(t, c) {
      if c == Parent(p) && y == Base(p) + "/" {
        EntriesDiffer(p, p);
      } else {
        MkdirEntryWasThere(s, p, t, c, y);
        assert ExactAt(s, l, c, y);
      }
    }
  }

  lemma {:induction false} MkdirEntryWasThere(s: Store, p: Path, t: Store, c: Path, y: string)
    requires p != ROOT && !Live(s, p) && LiveDir(s, Parent(p)) && Parent(p) != p
    requires EditedTo(s, t, Parent(p), With(Listing(s, Parent(p)), Base(p) + "/"), p, DefaultDir(p))
    requires LiveDir(t, c) && y in Listing(t, c) && !(c == Parent(p) && y == Base(p) + "/")
    ensures LiveDir(s, c) && y in Listing(s, c)
  {
    WithContents(Listing(s, Parent(p)), Base(p) + "/");
  }

  lemma {:induction false} PutOkKeepsDirs(s: Store, l: Ledger, p: Path, i: Inode, t: Store, q: Path)
    requires Complete(s, l) && p != ROOT && LiveFile(s, p)
    requires i == GetInode(s, p).(ddlLock := i.ddlLock, sub := i.sub, filesize := i.filesize)
    requires EditedTo(s, t, Parent(p), With(Listing(s, Parent(p)), Base(p)), p, i)
    ensures DirListedAt(t, q)
  {
    ChildOfParent(p);
    assert FineAt(s, l, q);
    WithContents(Listing(s, Parent(p)), Base(p));
  }

  lemma {:induction false} PutOkKeepsShape(s: Store, l: Ledger, p: Path, i: Inode, t: Store, q: Path)
    requires Complete(s, l) && p != ROOT && LiveFile(s, p)
    requires i == GetInode(s, p).(ddlLock := i.ddlLock, sub := i.sub, filesize := i.filesize)
    requires EditedTo(s, t, Parent(p), With(Listing(s, Parent(p)), Base(p)), p, i)
    ensures ShapeAt(t, q) && LiveDir(t, Parent(p))
  {
    ChildOfParent(p);
    assert FineAt(s, l, q) && FineAt(s, l, p) && FineAt(s, l, Parent(p));
    WithContents(Listing(s, Parent(p)), Base(p));
  }

  lemma {:induction false} PutOkKeeps(s: Store, l: Ledger, p: Path, i: Inode, t: Store, q: Path)
    requires Complete(s, l) && p != ROOT && LiveFile(s, p)
    requires i == GetInode(s, p).(ddlLock := i.ddlLock, sub := i.sub, filesize := i.filesize)
    requires EditedTo(s, t, Parent(p), With(Listing(s, Parent(p)), Base(p)), p, i)
    ensures FineAt(t, l[p := Published(i.sub, i.filesize)], q)
  {
    PutOkKeepsShape(s, l, p, i, t, q);
    PutOkKeepsDirs(s, l, p, i, t, q);
    ChildOfParent(p);
    assert FineAt(s, l, q);
    WithContents(Listing(s, Parent(p)), Base(p));
    var m := l[p := Published(i.sub, i.filesize)];
    if q == p {
      assert Recorded(m, q) == m[q];
    } else {
      assert Recorded(m, q) == Recorded(l, q);
    }
  }

  lemma {:induction false} PutOkKeepsExact(s: Store, l: Ledger, p: Path, i: Inode, t: Store, c: Path, y: string)
    requires Complete(s, l) && Exact(s, l) && p != ROOT && LiveFile(s, p)
    requires i == GetInode(s, p).(ddlLock := i.ddlLock, sub := i.sub, filesize := i.filesize)
    requires EditedTo(s, t, Parent(p), With(Listing(s, Parent(p)), Base(p)), p, i)
    ensures ExactAt(t, l[p := Published(i.sub, i.filesize)], c, y)
  {
    ChildOfParent(p);
    if LiveDir(t, c) && y in Listing(t, c) {
      if c == Parent(p) && y == Base(p) {
        EntriesDiffer(p, p);
        assert c + [p[|p| - 1]] == p;
      } else {
        PutOkEntryWasThere(s, p, i, t, c, y);
        assert ExactAt(s, l, c, y);
      }
    }
  }

  lemma {:induction false} PutOkEntryWasThere(s: Store, p: Path, i: Inode, t: Store, c: Path, y: string)
    requires p != ROOT && LiveFile(s, p) && Parent(p) != p
    requires i == GetInode(s, p).(ddlLock := i.ddlLock, sub := i.sub, filesize := i.filesize)
    requires EditedTo(s, t, Parent(p), With(Listing(s, Parent(p)), Base(p)), p, i)
    requires LiveDir(t, c) && y in Listing(t, c) && !(c == Parent(p) && y == Base(p))
    ensures LiveDir(s, c) && y in Listing(s, c)
  {
    WithContents(Listing(s, Parent(p)), Base(p));
  }

  lemma {:induction false} WriteKeeps(s: Store, l: Ledger, p: Path, i: Inode, t: Store, q: Path)
    requires Complete(s, l) && Rewritten(s, t, p, i) && LiveDir(s, Parent(p))
    ensures FineAt(t, l, q)
  {
    assert FineAt(s, l, q) && FineAt(s, l, p);
  }

  lemma {:induction false} WriteKeepsExact(s: Store, l: Ledger, p: Path, i: Inode, t: Store, c: Path, y: string)
    requires Complete(s, l) && Exact(s, l) && Rewritten(s, t, p, i)
    ensures ExactAt(t, l, c, y)
  {
    assert ExactAt(s, l, c, y);
  }

  lemma {:induction false} RmKeepsShape(s: Store, l: Ledger, p: Path, t: Store, q: Path)
    requires Complete(s, l) && p != ROOT && Live(s, p) && (LiveDir(s, p) ==> NoLiveChild(s, p))
    requires EditedTo(s, t, Parent(p), Without(Listing(s, Parent(p)), Base(p)), p, Blank(p))
    ensures ShapeAt(t, q)
  {
    ChildOfParent(p);
    assert FineAt(s, l, q) && FineAt(s, l, p) && FineAt(s, l, Parent(p));
    WithoutContents(Listing(s, Parent(p)), Base(p));
  }

  lemma {:induction false} RmKeepsListed(s: Store, l: Ledger, p: Path, t: Store, q: Path)
    requires Complete(s, l) && p != ROOT && Live(s, p) && (LiveDir(s, p) ==> NoLiveChild(s, p))
    requires EditedTo(s, t, Parent(p), Without(Listing(s, Parent(p)), Base(p)), p, Blank(p))
    ensures DirListedAt(t, q) && FileListedAt(t, l - {p}, q) && UntornAt(t, l - {p}, q)
  {
    ChildOfParent(p);
    assert FineAt(s, l, q);
    WithoutContents(Listing(s, Parent(p)), Base(p));
    if q != ROOT {
      EntriesDiffer(p, q);
    }
    assert FineAt(s, l, Parent(p)) && FineAt(s, l, p);
  }

  lemma {:induction false} RmKeeps(s: Store, l: Ledger, p: Path, t: Store, q: Path)
    requires Complete(s, l) && p != ROOT && Live(s, p) && (LiveDir(s, p) ==> NoLiveChild(s, p))
    requires EditedTo(s, t, Parent(p), Without(Listing(s, Parent(p)), Base(p)), p, Blank(p))
    ensures FineAt(t, l - {p}, q)
  {
    RmKeepsShape(s, l, p, t, q);
    RmKeepsListed(s, l, p, t, q);
  }

  lemma {:induction false} RmKeepsExact(s: Store, l: Ledger, p: Path, t: Store, c: Path, y: string)
    requires Complete(s, l) && Exact(s, l) && p != ROOT && LiveFile(s, p)
    requires EditedTo(s, t, Parent(p), Without(Listing(s, Parent(p)), Base(p)), p, Blank(p))
    ensures ExactAt(t, l - {p}, c, y)
  {
    ChildOfParent(p);
    assert ExactAt(s, l, c, y);
    WithoutContents(Listing(s, Parent(p)), Base(p));
    if LiveDir(s, c) && y in Listing(s, c) {
      ParentOfChild(c, EntryName(y));
    }
  }

  // ----- kept exactly under the guard -----

  lemma {:induction false} ServeKeepsKeyed(s: Store, ev: Event)
    requires Keyed(s) && Serve(s, ev).Some?
    ensures Keyed(Serve(s, ev).value)
  {
    if Accepted(s, ev) {
      ApplyKeepsKeyed(s, Prepare(s, ev.req, ev.now).value);
    }
  }

  lemma {:induction false} GuardKeepsComplete(s: Store, l: Ledger, ev: Event)
    requires Complete(s, l) && Accepted(s, ev) && ListingGuard(s, ev.req)
    ensures Serve(s, ev).Some? && Complete(Serve(s, ev).value, Record(l, s, ev))
  {
    var p := ev.req.path;
    match ev.req {
      case MkdirReq(_) =>
        ServedMkdir(s, ev);
        forall q ensures FineAt(Serve(s, ev).value, l, q) { MkdirKeeps(s, l, p, Serve(s, ev).value, q); }
      case RmReq(_) =>
        LiveParentReady(s, l, p);
        ServedRm(s, ev);
        forall q ensures FineAt(Serve(s, ev).value, l - {p}, q) { RmKeeps(s, l, p, Serve(s, ev).value, q); }
      case PutOkReq(_, sub, filesize) =>
        LiveParentReady(s, l, p);
        ServedPutOk(s, ev);
        var i := Unlock(GetInode(s, p)).(sub := sub, filesize := filesize);
        var m := l[p := Published(sub, filesize)];
        forall q ensures FineAt(Serve(s, ev).value, m, q) {
          PutOkKeeps(s, l, p, i, Serve(s, ev).value, q);
        }
      case _ =>
        var i := ServedWrite(s, l, ev);
        assert FineAt(s, l, p);
        forall q ensures FineAt(Serve(s, ev).value, l, q) { WriteKeeps(s, l, p, i, Serve(s, ev).value, q); }
    }
    ServeKeepsKeyed(s, ev);
    assert GetInode(Serve(s, ev).value, ROOT).isDirectory == GetInode(s, ROOT).isDirectory;
  }

  lemma {:induction false} GuardKeepsExact(s: Store, l: Ledger, ev: Event)
    requires Tree(s, l) && Accepted(s, ev) && TreeGuard(s, ev.req)
    ensures Serve(s, ev).Some? && Exact(Serve(s, ev).value, Record(l, s, ev))
  {
    var p := ev.req.path;
    match ev.req {
      case MkdirReq(_) =>
        ServedMkdir(s, ev);
        forall c, y ensures ExactAt(Serve(s, ev).value, l, c, y) { MkdirKeepsExact(s, l, p, Serve(s, ev).value, c, y); }
      case RmReq(_) =>
        LiveParentReady(s, l, p);
        ServedRm(s, ev);
        forall c, y ensures ExactAt(Serve(s, ev).value, l - {p}, c, y) { RmKeepsExact(s, l, p, Serve(s, ev).value, c, y); }
      case PutOkReq(_, sub, filesize) =>
        LiveParentReady(s, l, p);
        ServedPutOk(s, ev);
        var i := Unlock(GetInode(s, p)).(sub := sub, filesize := filesize);
        var m := l[p := Published(sub, filesize)];
        forall c, y ensures ExactAt(Serve(s, ev).value, m, c, y) {
          PutOkKeepsExact(s, l, p, i, Serve(s, ev).value, c, y);
        }
      case _ =>
        var i := ServedWrite(s, l, ev);
        forall c, y ensures ExactAt(Serve(s, ev).value, l, c, y) { WriteKeepsExact(s, l, p, i, Serve(s, ev).value, c, y); }
    }
  }

  lemma {:induction false} NoGuardBreaksComplete(s: Store, l: Ledger, ev: Event)
    requires Complete(s, l) && Accepted(s, ev) && !ListingGuard(s, ev.req)
    ensures Serve(s, ev).Some? && !Complete(Serve(s, ev).value, Record(l, s, ev))
  {
    var p := ev.req.path;
    var m := Record(l, s, ev);
    match ev.req {
      case MkdirReq(_) =>
        ServedMkdir(s, ev);
        ChildOfParent(p);
        assert !FineAt(Serve(s, ev).value, m, p);
      case RmReq(_) =>
        LiveParentReady(s, l, p);
        ServedRm(s, ev);
        if p == ROOT {
          assert !RootIsDir(Serve(s, ev).value);
        } else {
          var c :| c in s && s[c].valid && c != ROOT && Parent(c) == p;
          ChildOfParent(c);
          ChildOfParent(p);
          assert GetInode(Serve(s, ev).value, c) == s[c];
          assert !FineAt(Serve(s, ev).value, m, c);
        }
      case PutReq(_, _) =>
        var i := ServedWrite(s, l, ev);
        ChildOfParent(p);
        assert !FineAt(Serve(s, ev).value, m, p);
    }
  }

  /** An accepted request keeps the listings complete exactly when it respects the guard. */
  lemma {:induction false} CompleteKeptIff(s: Store, l: Ledger, ev: Event)
    requires Complete(s, l) && Accepted(s, ev)
    ensures Serve(s, ev).Some?
    ensures Complete(Serve(s, ev).value, Record(l, s, ev)) <==> ListingGuard(s, ev.req)
  {
    if ListingGuard(s, ev.req) {
      GuardKeepsComplete(s, l, ev);
    } else {
      NoGuardBreaksComplete(s, l, ev);
    }
  }

  /** The entry of a removed directory stays behind in its parent's listing. */
  lemma {:induction false} RmDirLeavesEntry(s: Store, l: Ledger, ev: Event)
    requires Complete(s, l) && Accepted(s, ev) && ev.req.RmReq? && ev.req.path != ROOT && LiveDir(s, ev.req.path)
    ensures Serve(s, ev).Some? && !Exact(Serve(s, ev).value, Record(l, s, ev))
    ensures var p, t := ev.req.path, Serve(s, ev).value;
            Base(p) + "/" in Listing(t, Parent(p)) && LiveDir(t, Parent(p)) && !Live(t, p)
  {
    var p := ev.req.path;
    LiveParentReady(s, l, p);
    ServedRm(s, ev);
    ChildOfParent(p);
    EntriesDiffer(p, p);
    var d, x := Parent(p), Base(p) + "/";
    assert FineAt(s, l, p);
    WithoutContents(Listing(s, d), Base(p));
    assert !ExactAt(Serve(s, ev).value, Record(l, s, ev), d, x);
  }

  /** An accepted request keeps the whole tree invariant exactly when it respects the stricter guard. */
  lemma {:induction false} TreeKeptIff(s: Store, l: Ledger, ev: Event)
    requires Tree(s, l) && Accepted(s, ev)
    ensures Serve(s, ev).Some?
    ensures Tree(Serve(s, ev).value, Record(l, s, ev)) <==> TreeGuard(s, ev.req)
  {
    CompleteKeptIff(s, l, ev);
    if TreeGuard(s, ev.req) {
      GuardKeepsExact(s, l, ev);
    } else if ev.req.RmReq? && ev.req.path != ROOT {
      RmDirLeavesEntry(s, l, ev);
    }
  }

  // ----- whole runs -----

  datatype Served = Served(store: Store, ledger: Ledger)

  function Step(a: Served, ev: Event): Option<Served> {
    match Serve(a.store, ev)
    case None => None
    case Some(t) => Some(Served(t, Record(a.ledger, a.store, ev)))
  }

  /** The state after a run from a given one; `None` if it aborted. */
  function AfterFrom(a: Served, evs: seq<Event>): Option<Served> {
    if evs == [] then Some(a) else
      match AfterFrom(a, evs[..|evs| - 1])
      case None => None
      case Some(b) => Step(b, evs[|evs| - 1])
  }

  const START: Served := Served(map[], map[])

  /** The state after a run from an empty namenode. */
  function After(evs: seq<Event>): Option<Served> { AfterFrom(START, evs) }

  /** Every accepted request of the run respects the guard of the listing in the state it meets. */
  ghost predicate RespectfulFrom(a: Served, evs: seq<Event>) {
    forall i {:trigger evs[i]} | 0 <= i < |evs| ::
      AfterFrom(a, evs[..i]).Some? && Accepted(AfterFrom(a, evs[..i]).value.store, evs[i]) ==>
        ListingGuard(AfterFrom(a, evs[..i]).value.store, evs[i].req)
  }

  ghost predicate Respectful(evs: seq<Event>) { RespectfulFrom(START, evs) }

  /** As Respectful, and no directory is removed. */
  ghost predicate FilesOnly(evs: seq<Event>) {
    forall i {:trigger evs[i]} | 0 <= i < |evs| ::
      After(evs[..i]).Some? && Accepted(After(evs[..i]).value.store, evs[i]) ==>
        TreeGuard(After(evs[..i]).value.store, evs[i].req)
  }

  lemma {:induction false} EmptyIsTree()
    ensures Tree(map[], map[])
  {
    forall p ensures FineAt(map[], map[], p) { }
  }

  lemma {:induction false} RunKeepsCompleteFrom(a: Served, evs: seq<Event>)
    requires Complete(a.store, a.ledger) && RespectfulFrom(a, evs)
    ensures AfterFrom(a, evs).Some? && Complete(AfterFrom(a, evs).value.store, AfterFrom(a, evs).value.ledger)
  {
    if evs != [] {
      var init, ev := evs[..|evs| - 1], evs[|evs| - 1];
      assert forall i {:trigger init[i]} | 0 <= i < |init| :: init[i] == evs[i] && init[..i] == evs[..i];
      RunKeepsCompleteFrom(a, init);
      var b := AfterFrom(a, init).value;
      if Accepted(b.store, ev) {
        CompleteKeptIff(b.store, b.ledger, ev);
      }
    }
  }

  lemma {:induction false} RunKeepsComplete(evs: seq<Event>)
    requires Respectful(evs)
    ensures After(evs).Some? && Complete(After(evs).value.store, After(evs).value.ledger)
  {
    EmptyIsTree();
    RunKeepsCompleteFrom(START, evs);
  }

  lemma {:induction false} RunKeepsTree(evs: seq<Event>)
    requires FilesOnly(evs)
    ensures After(evs).Some? && Tree(After(evs).value.store, After(evs).value.ledger)
  {
    if evs == [] {
      EmptyIsTree();
    } else {
      var init, ev := evs[..|evs| - 1], evs[|evs| - 1];
      assert forall i {:trigger init[i]} | 0 <= i < |init| :: init[i] == evs[i] && init[..i] == evs[..i];
      RunKeepsTree(init);
      var a := After(init).value;
      if Accepted(a.store, ev) {
        TreeKeptIff(a.store, a.ledger, ev);
      }
    }
  }

  // ----- main results -----

  /** In every state such a run reaches, a directory lists "n/" once exactly when the child is a
      live directory, "n" once exactly when the child is a file with a put_ok since its last rm,
      and nothing else; a live file that is not listed is empty. */
  lemma {:induction false} NamespaceIsATree(evs: seq<Event>, d: Path, n: Name)
    requires FilesOnly(evs)
    ensures After(evs).Some?
    ensures var s, l := After(evs).value.store, After(evs).value.ledger;
            LiveDir(s, d) ==>
              && multiset(Listing(s, d))[n + "/"] == (if LiveDir(s, d + [n]) then 1 else 0)
              && multiset(Listing(s, d))[n] == (if d + [n] in l then 1 else 0)
              && (d + [n] in l ==> LiveFile(s, d + [n]))
              && (LiveFile(s, d + [n]) && n !in Listing(s, d) ==>
                    GetInode(s, d + [n]).sub == [] && GetInode(s, d + [n]).filesize == 0)
              && forall x | x in Listing(s, d) :: Backed(s, l, d, x)
  {
    RunKeepsTree(evs);
    var s, l := After(evs).value.store, After(evs).value.ledger;
    if LiveDir(s, d) {
      var p := d + [n];
      ParentOfChild(d, n);
      EntriesDiffer(p, p);
      assert FineAt(s, l, d) && FineAt(s, l, p);
      assert ExactAt(s, l, d, n + "/") && ExactAt(s, l, d, n);
      NoDupCount(Listing(s, d), n + "/");
      NoDupCount(Listing(s, d), n);
      forall x | x in Listing(s, d) ensures Backed(s, l, d, x) { assert ExactAt(s, l, d, x); }
    }
  }

  /** With directories removed only when empty, whatever is live and published is listed exactly
      once, through any number of removals and new creations. */
  lemma {:induction false} ListingsAreComplete(evs: seq<Event>, p: Path)
    requires Respectful(evs) && p != ROOT
    ensures After(evs).Some?
    ensures var s, l := After(evs).value.store, After(evs).value.ledger;
            && (Live(s, p) ==> LiveDir(s, Parent(p)))
            && (LiveDir(s, p) ==> multiset(Listing(s, Parent(p)))[Base(p) + "/"] == 1)
            && (p in l ==> LiveFile(s, p) && multiset(Listing(s, Parent(p)))[Base(p)] == 1)
  {
    RunKeepsComplete(evs);
    var s, l := After(evs).value.store, After(evs).value.ledger;
    assert FineAt(s, l, p) && FineAt(s, l, Parent(p));
    if Live(s, p) {
      NoDupCount(Listing(s, Parent(p)), Base(p) + "/");
      NoDupCount(Listing(s, Parent(p)), Base(p));
    }
  }

  /** A live file shows the block list and size of its latest put_ok since its last rm, or nothing. */
  lemma {:induction false} MetadataIsNeverTorn(evs: seq<Event>, p: Path)
    requires Respectful(evs)
    ensures After(evs).Some?
    ensures var s, l := After(evs).value.store, After(evs).value.ledger;
            LiveFile(s, p) ==> Published(GetInode(s, p).sub, GetInode(s, p).filesize) == Recorded(l, p)
  {
    RunKeepsComplete(evs);
    assert FineAt(After(evs).value.store, After(evs).value.ledger, p);
  }

  /** A valid path stays valid and of its kind under every request but its own rm. */
  lemma {:induction false} KindKeptUntilRm(s: Store, ev: Event, p: Path)
    requires Keyed(s) && GetInode(s, p).valid && Serve(s, ev).Some?
    requires Accepted(s, ev) ==> ev.req != RmReq(p)
    ensures GetInode(Serve(s, ev).value, p).valid
    ensures GetInode(Serve(s, ev).value, p).isDirectory == GetInode(s, p).isDirectory
  {
    if Accepted(s, ev) {
      PreparedPath(s, ev.req, ev.now);
      ApplyProjects(s, Prepare(s, ev.req, ev.now).value, p);
    }
  }

  lemma {:induction false} AfterIsKeyed(evs: seq<Event>)
    requires After(evs).Some?
    ensures Keyed(After(evs).value.store)
  {
    if evs != [] {
      AfterIsKeyed(evs[..|evs| - 1]);
      ServeKeepsKeyed(After(evs[..|evs| - 1]).value.store, evs[|evs| - 1]);
    }
  }

  /** Over a whole run, without any guard: a path changes between file and directory, or stops
      being valid, only through an accepted rm of that path. */
  lemma {:induction false} KindChangesOnlyThroughRm(evs: seq<Event>, i: nat, p: Path)
    requires After(evs).Some? && i <= |evs| && After(evs[..i]).Some?
    requires GetInode(After(evs[..i]).value.store, p).valid
    requires forall j {:trigger evs[j]} | i <= j < |evs| && After(evs[..j]).Some? ::
               evs[j].req == RmReq(p) ==> !Accepted(After(evs[..j]).value.store, evs[j])
    ensures GetInode(After(evs).value.store, p).valid
    ensures GetInode(After(evs).value.store, p).isDirectory == GetInode(After(evs[..i]).value.store, p).isDirectory
  {
    if i == |evs| {
      assert evs[..i] == evs;
    } else {
      var init, ev := evs[..|evs| - 1], evs[|evs| - 1];
      assert init[..i] == evs[..i];
      assert forall j {:trigger init[j]} | i <= j < |init| :: init[j] == evs[j] && init[..j] == evs[..j];
      KindChangesOnlyThroughRm(init, i, p);
      AfterIsKeyed(init);
      KindKeptUntilRm(After(init).value.store, ev, p);
    }
  }
}
