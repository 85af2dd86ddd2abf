/** A file closed and opened again. close drops the cached inode and leaves the block files, so the next
    update_inode has nothing to compare with and removes none of them. */
module ReopenedFile {
  import opened Results
  import opened FlatFile
  import opened OpenFile

  /** Every block file is there in the remote inode too, with fragments that decode to the same bytes. */
  ghost predicate Unchanged(dec: Decoder, cache: Cache, published: seq<string>, remote: seq<string>)
    requires forall i | i in cache :: i < |published|
  {
    forall i | i in cache :: i < |remote| && (cache[i] != "" ==> Decode(dec, published[i]) == Decode(dec, remote[i]))
  }

  lemma {:induction false} ForgottenKeepsAll(cache: Cache, remote: seq<string>)
    ensures Kept(cache, [], remote) == cache
  {
  }

  /** Block files that fit the inode published at close fit the inode found at the next open if and only if none
      of those blocks was written by someone else in between. */
  lemma {:induction false} ReopenedIsCoherentIff(dec: Decoder, cache: Cache, published: seq<string>, remote: seq<string>)
    requires Coherent(dec, cache, published)
    ensures Coherent(dec, Kept(cache, [], remote), remote) <==> Unchanged(dec, cache, published, remote)
  {
    ForgottenKeepsAll(cache, remote);
    if Coherent(dec, cache, remote) {
      forall i | i in cache
        ensures i < |remote| && (cache[i] != "" ==> Decode(dec, published[i]) == Decode(dec, remote[i]))
      {
        assert i < |published|;
      }
    }
  }

  /** open on a file that was closed here before. */
  method Reopen(f: File, remoteSub: seq<string>, remoteSize: nat, ghost published: seq<string>)
    requires f.sub == [] && Coherent(f.dec, f.cache, published)
    modifies f`cache, f`sub, f`filesize
    ensures f.cache == old(f.cache) && f.sub == remoteSub && f.filesize == remoteSize
    ensures Coherent(f.dec, f.cache, f.sub) <==> Unchanged(f.dec, f.cache, published, remoteSub)
  {
    ForgottenKeepsAll(f.cache, remoteSub);
    ReopenedIsCoherentIff(f.dec, f.cache, published, remoteSub);
    f.UpdateInode(remoteSub, remoteSize);
  }

  /** What a read finds at a stale block: as much of the bytes published at close as it asks for. */
  lemma {:induction false} StaleRead(dec: Decoder, cache: Cache, published: seq<string>, remote: seq<string>, bs: nat, filesize: nat, i: nat, n: nat)
    requires bs > 0 && Coherent(dec, cache, published) && Cached(cache, i) && i < |remote|
    requires n <= |Decode(dec, published[i])| && Start(i, bs) + n <= filesize
    ensures ReadOf(Founds(dec, cache, remote), bs, filesize, Start(i, bs), n) == Some(Slice(Decode(dec, published[i]), 0, n))
  {
    FoundAt(dec, cache, remote, |remote|, i);
    BlockRead(Founds(dec, cache, remote), bs, filesize, i, n);
  }

  /** One block "x" is read here and the file closed; another client publishes "y"; the file is opened again,
      and the read gives "x". */
  method StaleAfterReopen() returns (r: Option<string>)
    ensures r == Some("x")
  {
    var published, remote := ["p"], ["r"];
    var dec := map["p" := "x", "r" := "y"];
    var f := new File(1, dec, published, 1, map[0 := "x"]);
    assert Coherent(dec, f.cache, published);
    var nothing := f.Close(map[]);
    Reopen(f, remote, 1, published);
    assert Start(0, 1) == 0;
    StaleRead(dec, f.cache, published, remote, 1, 1, 0, 1);
    assert Slice("x", 0, 1) == "x" by { SliceIs("x", 0, 1); }
    r := f.ReadData(0, 1);
  }

  /** In that state the file holds "y", as the decoded fragments say. */
  lemma {:induction false} StaleContent()
    ensures var dec := map["p" := "x", "r" := "y"];
            WellCut(Decodeds(dec, ["r"]), 1, 1) && Content(Decodeds(dec, ["r"]), 1, 1) == "y"
  {
    var dec := map["p" := "x", "r" := "y"];
    var sub := ["r"];
    DecodedAt(dec, sub, 1, 0);
    assert Decodeds(dec, sub) == ["y"];
    GatherOne(["y"], 1, 0);
  }
}
