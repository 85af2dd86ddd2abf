/** Paths and inodes. A path is the sequence of its names, so "/" is the empty sequence. */
module Inodes {
  import opened Results
  import opened StorageText

  predicate IsName(s: string) { s != "" && '/' !in s }

  type Name = s: string | IsName(s) witness "a"

  type Path = seq<Name>

  const ROOT: Path := []

  /** LOCK_REFRESH_INTERVAL, in seconds. */
  const LEASE: nat := 60

  datatype Inode = Inode(
    path: Path,
    isDirectory: bool,
    filesize: nat,
    storage: Option<StorageType>,
    sub: seq<string>,
    valid: bool,
    ddlLock: nat)

  /** A default-constructed inode that is not valid: what `rm` proposes, and what a lookup of a missing key gives. */
  function Blank(p: Path): Inode {
    Inode(p, false, 0, None, [], false, 0)
  }

  function DefaultDir(p: Path): Inode {
    Inode(p, true, 0, None, [], true, 0)
  }

  /** `std::filesystem` gives "/" as the parent of "/". */
  function Parent(p: Path): Path {
    if p == [] then [] else p[..|p| - 1]
  }

  function Base(p: Path): string {
    if p == [] then "" else p[|p| - 1]
  }

  /** How an inode appears in its parent's listing: a directory's name ends in a slash. */
  function Filename(i: Inode): string {
    Base(i.path) + if i.isDirectory then "/" else ""
  }

  /** Inode::lock: the new deadline, unless an unexpired one is held (the error carries that one). */
  function Lock(i: Inode, now: nat): Result<Inode, nat> {
    if i.ddlLock >= now then Err(i.ddlLock) else Ok(i.(ddlLock := now + LEASE))
  }

  function Unlock(i: Inode): Inode { i.(ddlLock := 0) }

  function Renew(i: Inode, now: nat): Inode { i.(ddlLock := now + LEASE) }

  // ----- listings -----

  ghost predicate NoDup<T>(s: seq<T>) {
    forall i, j | 0 <= i < j < |s| :: s[i] != s[j]
  }

  /** `find`, then `push_back` when absent. */
  function With<T(==)>(s: seq<T>, x: T): seq<T> {
    if x in s then s else s + [x]
  }

  /** erase(remove(...)): every occurrence of `x` goes, the others keep their order. */
  function Without<T(==)>(s: seq<T>, x: T): seq<T> {
    if s == [] then []
    else (if s[0] == x then [] else [s[0]]) + Without(s[1..], x)
  }

  lemma {:induction false} WithContents<T>(s: seq<T>, x: T)
    ensures forall y :: y in With(s, x) <==> y in s || y == x
    ensures NoDup(s) ==> NoDup(With(s, x))
  {
  }

  lemma {:induction false} WithoutContents<T>(s: seq<T>, x: T)
    ensures forall y :: y in Without(s, x) <==> y in s && y != x
    ensures NoDup(s) ==> NoDup(Without(s, x))
  {
    if s != [] {
      WithoutContents(s[1..], x);
      assert s == [s[0]] + s[1..];
      if NoDup(s) {
        assert NoDup(s[1..]) && s[0] !in s[1..];
        NoDupCons(s[0], Without(s[1..], x));
      }
    }
  }

  lemma {:induction false} NoDupCons<T>(x: T, s: seq<T>)
    requires NoDup(s) && x !in s
    ensures NoDup([x] + s)
  {
  }

  lemma {:induction false} NoDupCount<T>(s: seq<T>, x: T)
    requires NoDup(s)
    ensures multiset(s)[x] == if x in s then 1 else 0
  {
    if s != [] {
      assert s == [s[0]] + s[1..];
      NoDupCount(s[1..], x);
    }
  }
}
