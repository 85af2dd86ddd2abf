/** The namenode's database object and the code around it, statement by statement:
    every method is tied to the functions of Metadata. */
module RocksDb {
  import opened Results
  import opened Inodes
  import opened Metadata
  import opened Replication
  import StorageText

  class RocksDB {
    var db: Store
    /** What the backup engine keeps, oldest first. */
    var backups: seq<Store>

    /** Opening finds the contents and the backups that are on disk. */
    constructor (found: Store, backups: seq<Store>)
      ensures db == found && this.backups == backups
    {
      db := found;
      this.backups := backups;
    }

    /** The object holds what the machine says of a replica: its contents and its latest backup. */
    ghost predicate Represents(self: Replica)
      reads this
    {
      && db == self.store
      && (self.backup.None? <==> backups == [])
      && (backups != [] ==> self.backup.value.store == backups[|backups| - 1])
    }

    /** on_snapshot_save: the machine's backup step. */
    method OnSnapshotSave(ghost self: Replica)
      requires Represents(self)
      modifies `backups
      ensures Represents(Saved(self))
    {
      Snapshot();
    }

    method Snapshot()
      modifies `backups
      ensures backups == old(backups) + [db]
    {
      backups := backups + [db];
    }

    method LoadSnapshot()
      requires backups != []
      modifies `db
      ensures db == backups[|backups| - 1]
    {
      db := backups[|backups| - 1];
    }

    method Exists(p: Path) returns (r: bool)
      ensures r == PathExists(db, p)
    {
      if p == ROOT {
        return true;
      }
      if p !in db {
        return false;
      }
      return db[p].valid;
    }

    method TryToRm(inode: Inode) returns (r: Option<Error>)
      ensures r == if PathExists(db, inode.path) then None else Some(PathNotExists(inode.path))
    {
      var found := Exists(inode.path);
      r := if found then None else Some(PathNotExists(inode.path));
    }

    method TryToAdd(inode: Inode) returns (r: Option<Error>)
      ensures r.None? <==> PathExists(db, Parent(inode.path)) && !PathExists(db, inode.path)
      ensures r.Some? ==> r.value == if PathExists(db, Parent(inode.path)) then PathAlreadyExists(inode.path)
                                     else PathNotExists(Parent(inode.path))
    {
      var parentFound := Exists(Parent(inode.path));
      if !parentFound {
        return Some(PathNotExists(Parent(inode.path)));
      }
      var found := Exists(inode.path);
      if found {
        return Some(PathAlreadyExists(inode.path));
      }
      return None;
    }

    /** get_inode on a default-constructed inode with the given path. */
    method Fetch(p: Path) returns (inode: Inode)
      ensures inode == GetInode(db, p)
    {
      inode := Blank(p);
      if p !in db {
        if p == ROOT {
          inode := inode.(isDirectory := true, valid := true);
        }
        return;
      }
      inode := db[p];
    }

    method Ls(p: Path) returns (r: Result<Inode, Error>)
      ensures r == if GetInode(db, p).valid then Ok(GetInode(db, p)) else Err(PathNotExists(GetInode(db, p).path))
    {
      var inode := Fetch(p);
      if !inode.valid {
        return Err(PathNotExists(inode.path));
      }
      return Ok(inode);
    }

    method FetchParent(inode: Inode) returns (r: Option<Inode>)
      ensures r == if ParentReady(db, inode.path) then Some(ParentInode(db, inode.path)) else None
    {
      var p := Parent(inode.path);
      if p !in db {
        if p != ROOT {
          return None;
        }
        return Some(DefaultDir(ROOT));
      }
      return Some(db[p]);
    }

    method InternalMkdir(inode: Inode) returns (aborted: bool)
      modifies `db
      ensures Outcome(old(db), Entry(OpMkdir, inode), aborted)
    {
      var found := FetchParent(inode);
      if found.None? {
        return true;
      }
      var parent := found.value;
      if Filename(inode) !in parent.sub {
        parent := parent.(sub := parent.sub + [Filename(inode)]);
      }
      db := db[parent.path := parent][inode.path := inode];
      return false;
    }

    method InternalPut(inode: Inode) returns (aborted: bool)
      modifies `db
      ensures Outcome(old(db), Entry(OpPut, inode), aborted)
    {
      db := db[inode.path := inode];
      return false;
    }

    method InternalPutOk(inode: Inode) returns (aborted: bool)
      modifies `db
      ensures Outcome(old(db), Entry(OpPutOk, inode), aborted)
    {
      var found := FetchParent(inode);
      if found.None? {
        return true;
      }
      var parent := found.value;
      if Filename(inode) !in parent.sub {
        parent := parent.(sub := parent.sub + [Filename(inode)]);
      }
      var stored := Fetch(inode.path);
      stored := Unlock(stored);
      stored := stored.(sub := inode.sub);
      stored := stored.(filesize := inode.filesize);
      db := db[parent.path := parent][stored.path := stored];
      return false;
    }

    method InternalRm(inode: Inode) returns (aborted: bool)
      modifies `db
      ensures Outcome(old(db), Entry(OpRm, inode), aborted)
    {
      var found := FetchParent(inode);
      if found.None? {
        return true;
      }
      var parent := found.value;
      parent := parent.(sub := Without(parent.sub, Filename(inode)));
      db := db[parent.path := parent][inode.path := inode];
      return false;
    }

    /** The database after one entry, or untouched when the process aborts. */
    ghost predicate Outcome(before: Store, e: Entry, aborted: bool)
      reads `db
    {
      && aborted == Apply(before, e).None?
      && db == if aborted then before else Apply(before, e).value
    }

    /** on_apply: one batch of committed entries; an abort leaves the rest unapplied. */
    method OnApply(entries: seq<Entry>) returns (aborted: bool)
      modifies `db
      ensures aborted <==> ApplyLog(old(db), entries).None?
      ensures !aborted ==> ApplyLog(old(db), entries) == Some(db)
    {
      aborted := false;
      for i := 0 to |entries|
        invariant !aborted && ApplyLog(old(db), entries[..i]) == Some(db)
      {
        var e := entries[i];
        match e.op {
          case OpMkdir => aborted := InternalMkdir(e.inode);
          case OpPut => aborted := InternalPut(e.inode);
          case OpPutOk => aborted := InternalPutOk(e.inode);
          case OpRm => aborted := InternalRm(e.inode);
          case OpUnknown =>
        }
        assert entries[..i + 1][..i] == entries[..i];
        if aborted {
          AbortSticks(old(db), entries, i + 1);
          return;
        }
      }
      assert entries[..|entries|] == entries;
    }
  }

  /** A process that starts again: the database is opened with what is on disk, and the latest backup is loaded
      if there is one. This is the machine's restart step. */
  method Reopen(found: Store, backups: seq<Store>, ghost self: Replica) returns (rocks: RocksDB)
    requires found == self.store && (self.backup.None? <==> backups == [])
    requires backups != [] ==> self.backup.value.store == backups[|backups| - 1]
    ensures fresh(rocks) && rocks.Represents(Restarted(self)) && rocks.backups == backups
    ensures rocks.db == if backups == [] then found else backups[|backups| - 1]
  {
    rocks := new RocksDB(found, backups);
    if backups != [] {
      rocks.LoadSnapshot();
    }
  }

  lemma {:induction false} AbortSticks(s: Store, log: seq<Entry>, n: nat)
    requires n <= |log| && ApplyLog(s, log[..n]).None?
    ensures ApplyLog(s, log).None?
  {
    if n == |log| {
      assert log[..n] == log;
    } else {
      assert log[..|log| - 1][..n] == log[..n];
      AbortSticks(s, log[..|log| - 1], n);
    }
  }

  /** The request handlers: each builds an inode, has it checked, and yields the entry to propose. */
  class NamenodeService {
    const rocks: RocksDB

    constructor (rocks: RocksDB)
      ensures this.rocks == rocks
    {
      this.rocks := rocks;
    }

    method Mkdir(path: Path) returns (r: Result<Entry, Error>)
      ensures r == Prepare(rocks.db, MkdirReq(path), 0)
    {
      var inode := DefaultDir(path);
      var error := rocks.TryToAdd(inode);
      r := if error.Some? then Err(error.value) else Ok(Entry(OpMkdir, inode));
    }

    method Rm(path: Path) returns (r: Result<Entry, Error>)
      ensures r == Prepare(rocks.db, RmReq(path), 0)
    {
      var inode := Blank(path);
      var error := rocks.TryToRm(inode);
      inode := inode.(valid := false);
      r := if error.Some? then Err(error.value) else Ok(Entry(OpRm, inode));
    }

    method Put(path: Path, storageText: string, now: nat) returns (r: Result<Entry, Error>)
      ensures r == Prepare(rocks.db, PutReq(path, storageText), now)
    {
      var inode := rocks.Fetch(path);
      if inode.valid && inode.isDirectory {
        return Err(PathAlreadyExists(inode.path));
      }
      inode := inode.(isDirectory := false);
      inode := inode.(valid := true);
      var locked := Lock(inode, now);
      if locked.Err? {
        return Err(LockConflict(inode.path, locked.error));
      }
      inode := locked.value;
      var storage := StorageText.FromString(storageText);
      if storage.Err? {
        return Err(BadStorageType(storageText));
      }
      inode := inode.(storage := Some(storage.value));
      return Ok(Entry(OpPut, inode));
    }

    method PutOk(path: Path, sub: seq<string>, filesize: nat) returns (r: Result<Entry, Error>)
      ensures r == Prepare(rocks.db, PutOkReq(path, sub, filesize), 0)
    {
      var inode := rocks.Fetch(path);
      if !inode.valid {
        return Err(PathNotExists(inode.path));
      }
      if inode.isDirectory {
        return Err(ExpectedFile(inode.path));
      }
      inode := inode.(sub := sub);
      inode := inode.(filesize := filesize);
      return Ok(Entry(OpPutOk, inode));
    }

    /** update_lock: one entry per path, stopping at the first path that is not there;
        the entries before it have been proposed all the same. */
    method UpdateLock(paths: seq<Path>, now: nat) returns (proposed: seq<Entry>, failed: Option<Error>)
      ensures |proposed| <= |paths| && (failed.None? <==> |proposed| == |paths| && paths != [])
      ensures paths == [] ==> failed == Some(ParameterRequired)
      ensures forall i | 0 <= i < |proposed| :: Prepare(rocks.db, UpdateLockReq(paths[i]), now) == Ok(proposed[i])
      ensures failed.Some? && paths != [] ==> Prepare(rocks.db, UpdateLockReq(paths[|proposed|]), now) == Err(failed.value)
    {
      proposed, failed := [], None;
      if paths == [] {
        failed := Some(ParameterRequired);
        return;
      }
      for i := 0 to |paths|
        invariant failed.None? && |proposed| == i
        invariant forall j | 0 <= j < i :: Prepare(rocks.db, UpdateLockReq(paths[j]), now) == Ok(proposed[j])
      {
        var found := rocks.Ls(paths[i]);
        if found.Err? {
          failed := Some(found.error);
          return;
        }
        proposed := proposed + [Entry(OpPut, Renew(found.value, now))];
      }
    }
  }
}
