/** The namenode's metadata machine on values: how a request is checked against a
    store and becomes a log entry, and how a log entry changes a store. */
module Metadata {
  import opened Results
  import opened Inodes
  import StorageText

  type Store = map<Path, Inode>

  datatype OpType = OpMkdir | OpPut | OpPutOk | OpRm | OpUnknown

  datatype Entry = Entry(op: OpType, inode: Inode)

  datatype Request =
    | MkdirReq(path: Path)
    | RmReq(path: Path)
    | PutReq(path: Path, storageText: string)
    | PutOkReq(path: Path, sub: seq<string>, filesize: nat)
    | UpdateLockReq(path: Path)

  datatype Error =
    | PathNotExists(path: Path)
    | PathAlreadyExists(path: Path)
    | ExpectedFile(path: Path)
    | LockConflict(path: Path, ddlLock: nat)
    | BadStorageType(text: string)
    | ParameterRequired

  // ----- lookups -----

  predicate PathExists(s: Store, p: Path) {
    p == ROOT || (p in s && s[p].valid)
  }

  function GetInode(s: Store, p: Path): Inode {
    if p in s then s[p]
    else if p == ROOT then DefaultDir(ROOT)
    else Blank(p)
  }

  /** The assertion in get_parent_inode: only the root may be missing from the store. */
  predicate ParentReady(s: Store, p: Path) {
    Parent(p) in s || Parent(p) == ROOT
  }

  function ParentInode(s: Store, p: Path): Inode
    requires ParentReady(s, p)
  {
    if Parent(p) in s then s[Parent(p)] else DefaultDir(ROOT)
  }

  // ----- from request to log entry -----

  function PrepareMkdir(s: Store, p: Path): Result<Entry, Error> {
    if !PathExists(s, Parent(p)) then Err(PathNotExists(Parent(p)))
    else if PathExists(s, p) then Err(PathAlreadyExists(p))
    else Ok(Entry(OpMkdir, DefaultDir(p)))
  }

  function PrepareRm(s: Store, p: Path): Result<Entry, Error> {
    if !PathExists(s, p) then Err(PathNotExists(p)) else Ok(Entry(OpRm, Blank(p)))
  }

  function PreparePut(s: Store, p: Path, storageText: string, now: nat): Result<Entry, Error> {
    var found := GetInode(s, p);
    if found.valid && found.isDirectory then Err(PathAlreadyExists(found.path)) else
      match Lock(found.(isDirectory := false, valid := true), now)
      case Err(ddl) => Err(LockConflict(found.path, ddl))
      case Ok(locked) =>
        match StorageText.FromString(storageText)
        case Err(_) => Err(BadStorageType(storageText))
        case Ok(t) => Ok(Entry(OpPut, locked.(storage := Some(t))))
  }

  function PreparePutOk(s: Store, p: Path, sub: seq<string>, filesize: nat): Result<Entry, Error> {
    var found := GetInode(s, p);
    if !found.valid then Err(PathNotExists(found.path))
    else if found.isDirectory then Err(ExpectedFile(found.path))
    else Ok(Entry(OpPutOk, found.(sub := sub, filesize := filesize)))
  }

  function PrepareUpdateLock(s: Store, p: Path, now: nat): Result<Entry, Error> {
    var found := GetInode(s, p);
    if !found.valid then Err(PathNotExists(found.path)) else Ok(Entry(OpPut, Renew(found, now)))
  }

  /** What the leader proposes for a request, given its applied store and its clock. */
  function Prepare(s: Store, req: Request, now: nat): Result<Entry, Error> {
    match req
    case MkdirReq(p) => PrepareMkdir(s, p)
    case RmReq(p) => PrepareRm(s, p)
    case PutReq(p, text) => PreparePut(s, p, text, now)
    case PutOkReq(p, sub, filesize) => PreparePutOk(s, p, sub, filesize)
    case UpdateLockReq(p) => PrepareUpdateLock(s, p, now)
  }

  // ----- from log entry to store -----

  /** The two ordered writes of a batch: the parent under its own recorded path, then the target. */
  function WriteBoth(s: Store, parent: Inode, target: Inode): Store {
    s[parent.path := parent][target.path := target]
  }

  function ApplyMkdir(s: Store, i: Inode): Option<Store> {
    if !ParentReady(s, i.path) then None else
      var parent := ParentInode(s, i.path);
      Some(WriteBoth(s, parent.(sub := With(parent.sub, Filename(i))), i))
  }

  function ApplyRm(s: Store, i: Inode): Option<Store> {
    if !ParentReady(s, i.path) then None else
      var parent := ParentInode(s, i.path);
      Some(WriteBoth(s, parent.(sub := Without(parent.sub, Filename(i))), i))
  }

  function ApplyPutOk(s: Store, i: Inode): Option<Store> {
    if !ParentReady(s, i.path) then None else
      var parent := ParentInode(s, i.path);
      var found := Unlock(GetInode(s, i.path)).(sub := i.sub, filesize := i.filesize);
      Some(WriteBoth(s, parent.(sub := With(parent.sub, Filename(i))), found))
  }

  /** One committed entry on one store; `None` is the process aborting on the parent assertion. */
  function Apply(s: Store, e: Entry): Option<Store> {
    match e.op
    case OpMkdir => ApplyMkdir(s, e.inode)
    case OpPut => Some(s[e.inode.path := e.inode])
    case OpPutOk => ApplyPutOk(s, e.inode)
    case OpRm => ApplyRm(s, e.inode)
    case OpUnknown => Some(s)
  }

  function ApplyLog(s: Store, log: seq<Entry>): Option<Store> {
    if log == [] then Some(s) else
      match ApplyLog(s, log[..|log| - 1])
      case None => None
      case Some(t) => Apply(t, log[|log| - 1])
  }

  // ----- every store keeps each inode under its own path -----

  ghost predicate Keyed(s: Store) {
    forall p | p in s :: s[p].path == p
  }

  lemma {:induction false} ApplyKeepsKeyed(s: Store, e: Entry)
    requires Keyed(s) && Apply(s, e).Some?
    ensures Keyed(Apply(s, e).value)
    ensures s.Keys <= Apply(s, e).value.Keys
  {
  }

  lemma {:induction false} ApplyLogKeepsKeyed(s: Store, log: seq<Entry>)
    requires Keyed(s) && ApplyLog(s, log).Some?
    ensures Keyed(ApplyLog(s, log).value)
    ensures s.Keys <= ApplyLog(s, log).value.Keys
  {
    if log != [] {
      ApplyLogKeepsKeyed(s, log[..|log| - 1]);
      ApplyKeepsKeyed(ApplyLog(s, log[..|log| - 1]).value, log[|log| - 1]);
    }
  }

  /** An accepted request proposes an inode recorded under the requested path. */
  lemma {:induction false} PreparedPath(s: Store, req: Request, now: nat)
    requires Keyed(s) && Prepare(s, req, now).Ok?
    ensures Prepare(s, req, now).value.inode.path == req.path
    ensures Prepare(s, req, now).value.op != OpUnknown
  {
  }
}
