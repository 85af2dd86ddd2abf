/** One file opened by the client: the inode it cached at open, the block files below its
    temporary directory, and the hard links that mark the blocks written since. */
module OpenFile {
  import opened Results
  import opened Arithmetic
  import opened FlatFile

  /** C++ int: every value assigned to one is proved to be in range. */
  type int32 = x: int | -0x8000_0000 <= x < 0x8000_0000

  const INT_LIMIT: int := 0x8000_0000

  /** What decode_one makes of a fragment list, given the datanodes' present contents; a list that
      cannot be decoded gives the empty string. */
  type Decoder = map<string, string>

  function Decode(dec: Decoder, text: string): string { if text in dec then dec[text] else "" }

  /** The block files; an empty file counts as not there. */
  type Cache = map<nat, string>

  /** The blocks that the first `n` fragment lists decode to. */
  function DecodedsUpTo(dec: Decoder, sub: seq<string>, n: nat): (blocks: Blocks)
    requires n <= |sub|
    ensures |blocks| == n
  {
    if n == 0 then [] else DecodedsUpTo(dec, sub, n - 1) + [Decode(dec, sub[n - 1])]
  }

  function Decodeds(dec: Decoder, sub: seq<string>): Blocks { DecodedsUpTo(dec, sub, |sub|) }

  lemma {:induction false} DecodedAt(dec: Decoder, sub: seq<string>, n: nat, i: nat)
    requires i < n <= |sub|
    ensures DecodedsUpTo(dec, sub, n)[i] == Decode(dec, sub[i])
  {
    if i < n - 1 {
      DecodedAt(dec, sub, n - 1, i);
    }
  }

  /** Every cached block belongs to the inode and, unless empty, is what its fragments decode to. */
  ghost predicate Coherent(dec: Decoder, cache: Cache, sub: seq<string>) {
    forall i | i in cache :: i < |sub| && (cache[i] == "" || cache[i] == Decode(dec, sub[i]))
  }

  predicate Cached(cache: Cache, i: nat) { i in cache && cache[i] != "" }

  /** The block as a read finds it: the cached file, else the decoded fragments. */
  function Found(dec: Decoder, cache: Cache, sub: seq<string>, i: nat): string
    requires i < |sub|
  {
    if Cached(cache, i) then cache[i] else Decode(dec, sub[i])
  }

  /** The first `n` blocks as reads find them. */
  function FoundsUpTo(dec: Decoder, cache: Cache, sub: seq<string>, n: nat): (blocks: Blocks)
    requires n <= |sub|
    ensures |blocks| == n
  {
    if n == 0 then [] else FoundsUpTo(dec, cache, sub, n - 1) + [Found(dec, cache, sub, n - 1)]
  }

  function Founds(dec: Decoder, cache: Cache, sub: seq<string>): Blocks { FoundsUpTo(dec, cache, sub, |sub|) }

  lemma {:induction false} FoundAt(dec: Decoder, cache: Cache, sub: seq<string>, n: nat, i: nat)
    requires i < n <= |sub|
    ensures FoundsUpTo(dec, cache, sub, n)[i] == Found(dec, cache, sub, i)
  {
    if i < n - 1 {
      FoundAt(dec, cache, sub, n - 1, i);
    }
  }

  /** The cache after blocks `lo` to `hi - 1` were read. */
  function Filled(dec: Decoder, cache: Cache, sub: seq<string>, lo: nat, hi: nat): Cache
    decreases hi
  {
    if lo >= hi then cache
    else if hi - 1 < |sub| then Filled(dec, cache, sub, lo, hi - 1)[hi - 1 := Found(dec, cache, sub, hi - 1)]
    else Filled(dec, cache, sub, lo, hi - 1)
  }

  lemma {:induction false} FilledContents(dec: Decoder, cache: Cache, sub: seq<string>, lo: nat, hi: nat)
    ensures forall i :: i in Filled(dec, cache, sub, lo, hi) <==> i in cache || (lo <= i < hi && i < |sub|)
    ensures forall i | i in Filled(dec, cache, sub, lo, hi) ::
              Filled(dec, cache, sub, lo, hi)[i] == if lo <= i < hi && i < |sub| then Found(dec, cache, sub, i) else cache[i]
    decreases hi
  {
    if lo < hi {
      FilledContents(dec, cache, sub, lo, hi - 1);
    }
  }

  /** Reading keeps a coherent cache coherent. */
  lemma {:induction false} FilledIsCoherent(dec: Decoder, cache: Cache, sub: seq<string>, lo: nat, hi: nat)
    requires Coherent(dec, cache, sub)
    ensures Coherent(dec, Filled(dec, cache, sub, lo, hi), sub)
  {
    FilledContents(dec, cache, sub, lo, hi);
  }

  lemma {:induction false} CoherentFinds(dec: Decoder, cache: Cache, sub: seq<string>, n: nat)
    requires Coherent(dec, cache, sub) && n <= |sub|
    ensures FoundsUpTo(dec, cache, sub, n) == DecodedsUpTo(dec, sub, n)
  {
    if n > 0 {
      CoherentFinds(dec, cache, sub, n - 1);
    }
  }

  // ----- index arithmetic, in C++ int -----

  function AlignIndexDown(n: int32, alignment: int32): (r: int32)
    requires 0 <= n && 0 < alignment
    ensures r == Index(n, alignment)
  {
    IndexIsQuotient(n, alignment);
    n / alignment
  }

  function AlignIndexUp(n: int32, alignment: int32): (r: int32)
    requires 0 <= n < 0x7fff_ffff && 0 < alignment
    ensures r == Index(n, alignment) + 1
  {
    IndexIsQuotient(n, alignment);
    IndexBounds(n, alignment);
    n / alignment + 1
  }

  /** get_indexs: the first block of a range, and one past the block its end falls into. */
  method GetIndexes(bs: int32, offset: nat, size: nat) returns (first: int32, second: int32)
    requires 0 < bs && offset + size + bs < INT_LIMIT
    ensures first == Index(offset, bs) && second == Index(offset + size, bs) + 1
    ensures 0 <= first < second
  {
    first := AlignIndexDown(offset, bs);
    second := AlignIndexUp((offset + size), bs);
    IndexLe(offset, offset + size, bs);
  }

  /** A number of blocks in bytes. */
  method Bytes(n: int32, bs: int32) returns (r: int32)
    requires 0 <= n && 0 < bs && Start(n, bs) < INT_LIMIT
    ensures r == Start(n, bs)
  {
    StartIsProduct(n, bs);
    r := n * bs;
  }

  /** How far a position lies into its block. */
  function Within(n: nat, bs: nat): int
    requires bs > 0
  {
    n - Start(Index(n, bs), bs)
  }

  method Remainder(n: nat, bs: int32) returns (r: nat)
    requires bs > 0
    ensures r == Within(n, bs) < bs
  {
    IndexIsQuotient(n, bs);
    IndexBounds(n, bs);
    r := n % bs;
  }

  // ----- pieces of a write -----

  /** Where in the written string the piece for block `i` starts. */
  function PieceStart(bs: nat, offset: nat, i: nat): nat {
    if Start(i, bs) <= offset then 0 else Start(i, bs) - offset
  }

  function PieceEnd(bs: nat, offset: nat, size: nat, i: nat): int {
    Min(Start(i, bs) + bs, offset + size) - offset
  }

  /** How much of the string the blocks before `i` took. */
  function PieceAt(bs: nat, offset: nat, size: nat, i: nat): nat
    requires bs > 0
  {
    if i <= Index(offset + size, bs) then PieceStart(bs, offset, i) else size
  }

  function FileAt(cache: Cache, i: nat): string { if i in cache then cache[i] else "" }

  /** The part of the written string that goes into block `i`. */
  function Piece(bs: nat, offset: nat, s: string, i: nat): string {
    if 0 <= PieceStart(bs, offset, i) <= PieceEnd(bs, offset, |s|, i) <= |s|
    then s[PieceStart(bs, offset, i)..PieceEnd(bs, offset, |s|, i)] else ""
  }

  /** The block files after pieces `lo` to `hi - 1` of `s` were appended. */
  function Appended(cache: Cache, bs: nat, offset: nat, s: string, lo: nat, hi: nat): Cache
    decreases hi
  {
    if lo >= hi then cache else
      var c := Appended(cache, bs, offset, s, lo, hi - 1);
      c[hi - 1 := FileAt(c, hi - 1) + Piece(bs, offset, s, hi - 1)]
  }

  /** The marks after blocks `lo` to `hi - 1` were linked below the write directory. */
  function Marked(written: set<nat>, lo: nat, hi: nat): set<nat>
    decreases hi
  {
    if lo >= hi then written else Marked(written, lo, hi - 1) + {hi - 1}
  }

  lemma {:induction false} MarkedContents(written: set<nat>, lo: nat, hi: nat, i: nat)
    ensures i in Marked(written, lo, hi) <==> i in written || lo <= i < hi
    decreases hi
  {
    if lo < hi {
      MarkedContents(written, lo, hi - 1, i);
    }
  }

  lemma {:induction false} AppendedContents(cache: Cache, bs: nat, offset: nat, s: string, lo: nat, hi: nat, i: nat)
    ensures i in Appended(cache, bs, offset, s, lo, hi) <==> i in cache || lo <= i < hi
    ensures FileAt(Appended(cache, bs, offset, s, lo, hi), i) ==
            if lo <= i < hi then FileAt(cache, i) + Piece(bs, offset, s, i) else FileAt(cache, i)
    decreases hi
  {
    if lo < hi {
      AppendedContents(cache, bs, offset, s, lo, hi - 1, i);
    }
  }

  method Substring(s: string, start: nat, n: nat) returns (r: string)
    requires start + n <= |s|
    ensures r == Slice(s, start, n)
  {
    SliceIs(s, start, n);
    r := s[start..start + n];
  }

  /** The bytes for one block, and where the next ones start. */
  method NextPiece(bs: nat, offset: nat, s: string, i: nat, iter: nat, left: nat, right: nat) returns (piece: string, next: nat)
    requires bs > 0 && Index(offset, bs) <= i <= Index(offset + |s|, bs) && iter == PieceAt(bs, offset, |s|, i)
    requires left == if i == Index(offset, bs) then Within(offset, bs) else 0
    requires right == if i == Index(offset + |s|, bs) then Within(offset + |s|, bs) else bs
    ensures piece == Piece(bs, offset, s, i) && next == PieceAt(bs, offset, |s|, i + 1)
  {
    PieceLength(bs, offset, |s|, i);
    var localSize := right - left;
    piece := s[iter..iter + localSize];
    next := iter + localSize;
  }

  datatype Publish = Publish(sub: seq<string>, filesize: nat)

  class File {
    /** get_block_size of the inode's storage type. */
    const blockSize: int32
    const dec: Decoder
    var sub: seq<string>
    var filesize: nat
    var cache: Cache
    var written: set<nat>

    constructor (blockSize: int32, dec: Decoder, sub: seq<string>, filesize: nat, cache: Cache)
      ensures this.blockSize == blockSize && this.dec == dec
      ensures this.sub == sub && this.filesize == filesize && this.cache == cache && written == {}
    {
      this.blockSize := blockSize;
      this.dec := dec;
      this.sub := sub;
      this.filesize := filesize;
      this.cache := cache;
      written := {};
    }

    /** read_data(inode, indexs): blocks `first` to `second - 1`, through the cache. */
    method ReadBlocks(first: nat, second: nat) returns (out: string)
      requires 0 < blockSize && first <= second && first <= |sub|
      requires Start(second, blockSize) < INT_LIMIT && second < INT_LIMIT
      modifies `cache
      ensures out == Gather(Founds(dec, old(cache), sub), blockSize, first, second)
      ensures cache == Filled(dec, old(cache), sub, first, second)
    {
      out := "";
      var index := first;
      ghost var bs := blockSize;
      ghost var blocks := Founds(dec, cache, sub);
      while index < second
        invariant first <= index <= second
        invariant out == Gather(blocks, bs, first, index)
        invariant cache == Filled(dec, old(cache), sub, first, index)
      {
        if index >= |sub| {
          ReadPadding(dec, old(cache), sub, blocks, bs, first, index, second);
          StartLe(second - index, second, bs);
          var padding := Bytes((second - index), blockSize);
          out := out + Zeros(padding);
          return;
        }
        ReadStep(dec, old(cache), sub, bs, first, index);
        var block;
        if index in cache && cache[index] != "" {
          block := cache[index];
        } else {
          block := Decode(dec, sub[index]);
          cache := cache[index := block];
        }
        out := out + block;
        index := index + 1;
      }
    }

    /** The second half of read_data(path, offset, size), once the size is clamped. */
    method ReadClamped(offset: nat, n: nat) returns (r: Option<string>)
      requires 0 < blockSize && offset + n <= filesize && filesize + blockSize < INT_LIMIT
      modifies `cache
      ensures r == ReadAt(Founds(dec, old(cache), sub), blockSize, Index(offset, blockSize), Index(offset + n, blockSize) + 1, offset, n)
      ensures Coherent(dec, old(cache), sub) ==> Coherent(dec, cache, sub)
    {
      ReadRange(blockSize, filesize, offset, n);
      var first, second := GetIndexes(blockSize, offset, n);
      if first > |sub| {
        return None;
      }
      if Coherent(dec, cache, sub) {
        FilledIsCoherent(dec, cache, sub, first, second);
      }
      var s := ReadBlocks(first, second);
      var base := Bytes(first, blockSize);
      if offset - base + n > |s| {
        return None;
      }
      var slice := Substring(s, offset - base, n);
      return Some(slice);
    }

    /** read_data(path, offset, size): what the blocks found in the cache or decoded give; of a well cut file
        read through a coherent cache, the slice. */
    method ReadData(offset: nat, size: nat) returns (r: Option<string>)
      requires 0 < blockSize && filesize + blockSize < INT_LIMIT
      modifies `cache
      ensures r == ReadOf(Founds(dec, old(cache), sub), blockSize, filesize, offset, size)
      ensures WellCut(Decodeds(dec, sub), blockSize, filesize) && Coherent(dec, old(cache), sub) ==>
                r == Some(Slice(Content(Decodeds(dec, sub), blockSize, filesize), offset, size))
      ensures Coherent(dec, old(cache), sub) ==> Coherent(dec, cache, sub)
    {
      if WellCut(Decodeds(dec, sub), blockSize, filesize) && Coherent(dec, cache, sub) {
        CoherentRead(dec, cache, sub, blockSize, filesize, offset, size);
      }
      if filesize < offset {
        return Some("");
      }
      var n := if filesize < offset + size then filesize - offset else size;
      r := ReadClamped(offset, n);
    }

    /** write_data(path, offset, s): pieces appended to the block files, each marked as written. */
    method WriteData(offset: nat, s: string)
      requires 0 < blockSize && filesize <= Start(|sub|, blockSize)
      requires offset + |s| + blockSize < INT_LIMIT
      modifies `cache, `written
      ensures var bs := blockSize;
              var first, second := Index(offset, bs), Index(offset + |s|, bs) + 1;
              && cache == Appended(Prefetched(dec, old(cache), sub, bs, filesize, offset, |s|), bs, offset, s, first, second)
              && written == Marked(old(written), first, second)
    {
      var firstInt, secondInt := GetIndexes(blockSize, offset, |s|);
      var offsetIn := Remainder(offset, blockSize);
      var endIn := Remainder(offset + |s|, blockSize);
      Prefetch(offset, |s|, offsetIn, endIn);
      WritePieces(offset, s, firstInt, secondInt, offsetIn, endIn);
    }

    /** The loop of write_data. */
    method WritePieces(offset: nat, s: string, first: nat, second: nat, offsetIn: nat, endIn: nat)
      requires 0 < blockSize
      requires first == Index(offset, blockSize) && second == Index(offset + |s|, blockSize) + 1
      requires offsetIn == Within(offset, blockSize) && endIn == Within(offset + |s|, blockSize)
      modifies `cache, `written
      ensures cache == Appended(old(cache), blockSize, offset, s, first, second)
      ensures written == Marked(old(written), first, second)
    {
      var bs := blockSize;
      assert first < second && PieceAt(bs, offset, |s|, first) == 0 by {
        IndexBounds(offset, bs);
        IndexLe(offset, offset + |s|, bs);
      }
      var iter := 0;
      var index := first;
      while index < second
        invariant first <= index <= second
        invariant 0 <= iter == PieceAt(bs, offset, |s|, index)
        invariant cache == Appended(old(cache), bs, offset, s, first, index)
        invariant written == Marked(old(written), first, index)
      {
        var left := if index == first then offsetIn else 0;
        var right := if index == second - 1 then endIn else bs;
        var piece, next := NextPiece(bs, offset, s, index, iter, left, right);
        cache := cache[index := FileAt(cache, index) + piece];
        iter := next;
        written := written + {index};
        index := index + 1;
      }
    }

    /** The reads write_data makes before it writes into the middle of an existing block. */
    method Prefetch(offset: nat, size: nat, offsetIn: nat, endIn: nat)
      requires 0 < blockSize && filesize <= Start(|sub|, blockSize)
      requires offset + size + blockSize < INT_LIMIT
      requires offsetIn == Within(offset, blockSize) && endIn == Within(offset + size, blockSize)
      modifies `cache
      ensures cache == Prefetched(dec, old(cache), sub, blockSize, filesize, offset, size)
    {
      var bs := blockSize;
      var firstInt, secondInt := GetIndexes(blockSize, offset, size);
      var first, second: nat := firstInt, secondInt;
      if offset < filesize && offsetIn != 0 {
        ReadableBlock(bs, offset, filesize, |sub|);
        var _ := ReadBlocks(first, first + 1);
      }
      if offset + size < filesize && first != second - 1 && endIn != 0 {
        ReadableBlock(bs, offset + size, filesize, |sub|);
        var _ := ReadBlocks(second - 1, second);
      }
    }

    /** update_inode, with the remote inode given: block files whose fragment list changed or went away
        are removed, and the remote inode becomes the local one. */
    method UpdateInode(remoteSub: seq<string>, remoteSize: nat)
      modifies `cache, `sub, `filesize
      ensures sub == remoteSub && filesize == remoteSize && cache == Kept(old(cache), old(sub), remoteSub)
      ensures forall i :: i in cache <==>
                i in old(cache) && !(i < |old(sub)| && (i >= |remoteSub| || old(sub)[i] != remoteSub[i]))
      ensures forall i | i in cache :: cache[i] == old(cache)[i]
      ensures Coherent(dec, old(cache), old(sub)) ==> Coherent(dec, cache, sub)
    {
      var local := sub;
      var common := if |local| <= |remoteSub| then |local| else |remoteSub|;
      for i := 0 to common
        invariant cache == Purged(old(cache), local, remoteSub, i)
      {
        if local[i] != remoteSub[i] {
          cache := cache - {i};
        }
      }
      var i := |remoteSub|;
      while i < |local|
        invariant cache == Purged(old(cache), local, remoteSub, if i < |local| then i else |local|)
      {
        cache := cache - {i};
        i := i + 1;
      }
      PurgedIsKept(old(cache), local, remoteSub, |local|);
      if Coherent(dec, old(cache), local) {
        KeptIsCoherent(dec, old(cache), local, remoteSub);
      }
      sub := remoteSub;
      filesize := remoteSize;
    }

    /** close: fsync, and the cached inode is dropped; the block files stay. */
    method Close(texts: map<nat, string>) returns (pub: Option<Publish>)
      requires 0 < blockSize && filesize < INT_LIMIT
      requires Flushable(cache, written, blockSize, texts)
      modifies `written, `sub, `filesize
      ensures written == {} && sub == [] && filesize == 0
      ensures pub.None? <==> old(written) == {}
      ensures pub.Some? ==> Flushed(old(sub), old(filesize), cache, old(written), blockSize, texts, pub.value)
    {
      pub := Fsync(texts);
      sub := [];
      filesize := 0;
    }

    /** list_dir and sort: the marked blocks in ascending order. */
    method SortedMarks() returns (res: seq<nat>)
      ensures forall i :: i in res <==> i in written
      ensures Ascending(res)
    {
      res := [];
      var rest := written;
      while rest != {}
        invariant rest <= written && Ascending(res)
        invariant forall i :: i in res <==> i in written && i !in rest
        decreases rest
      {
        var x :| x in rest;
        rest := rest - {x};
        InsertedContents(res, x);
        res := Inserted(res, x);
      }
    }

    /** fsync: every marked block is encoded (`texts[i]` is what encode_one returns for block `i`) and
        the new block list is published with put_ok; the marks are taken away. */
    method Fsync(texts: map<nat, string>) returns (pub: Option<Publish>)
      requires 0 < blockSize && filesize < INT_LIMIT
      requires Flushable(cache, written, blockSize, texts)
      modifies `written
      ensures written == {}
      ensures pub.None? <==> old(written) == {}
      ensures pub.Some? ==> Flushed(sub, filesize, cache, old(written), blockSize, texts, pub.value)
    {
      var res := SortedMarks();
      if res == [] {
        assert written == {};
        return None;
      }
      var last := res[|res| - 1];
      var newSub := sub;
      if |newSub| <= last {
        newSub := Resized(newSub, last + 1);
      }
      ghost var base := newSub;
      assert Fits(res, texts, |base|) by { FitsAll(res, texts, |base|); }
      var lastSize := 0;
      for j := 0 to |res|
        invariant newSub == Overlaid(base, texts, res, j) && written == Unmarked(old(written), res, j)
        invariant j > 0 ==> res[j - 1] in cache && lastSize == |cache[res[j - 1]]|
      {
        var i := res[j];
        assert i in old(written);
        lastSize := |cache[i]|;
        newSub := newSub[i := texts[i]];
        written := written - {i};
      }
      var end: int32 := MulAdd(last, blockSize, lastSize);
      var newSize: int32 := if filesize > end then filesize else end;
      assert written == {} && Flushed(sub, filesize, cache, old(written), blockSize, texts, Publish(newSub, newSize)) by {
        FlushedAll(sub, filesize, cache, old(written), blockSize, texts, res, base, newSize);
      }
      return Some(Publish(newSub, newSize));
    }
  }

  /** Every marked block has a file and a text, and ends where an int can tell. */
  ghost predicate Flushable(cache: Cache, written: set<nat>, bs: nat, texts: map<nat, string>) {
    forall i | i in written :: i in texts && i in cache && Start(i, bs) + |cache[i]| < INT_LIMIT && i < INT_LIMIT
  }

  lemma {:induction false} FlushedAll(sub: seq<string>, filesize: nat, cache: Cache, written: set<nat>, bs: nat, texts: map<nat, string>,
                   res: seq<nat>, base: seq<string>, newSize: nat)
    requires Ascending(res) && res != [] && (forall i :: i in res <==> i in written)
    requires forall i | i in written :: i in texts && i in cache
    requires base == if |sub| <= res[|res| - 1] then Resized(sub, res[|res| - 1] + 1) else sub
    requires Fits(res, texts, |base|)
    requires var end := Start(res[|res| - 1], bs) + |cache[res[|res| - 1]]|; newSize == if filesize > end then filesize else end
    ensures Unmarked(written, res, |res|) == {}
    ensures Flushed(sub, filesize, cache, written, bs, texts, Publish(Overlaid(base, texts, res, |res|), newSize))
  {
    assert res[..|res|] == res;
    UnmarkedContents(written, res, |res|);
    OverlaidContents(base, texts, res, |res|);
    AscendingLast(res);
    var last := res[|res| - 1];
    assert last in written;
  }

  /** Every index of the list has a text and lies below `n`. */
  ghost predicate Fits(res: seq<nat>, texts: map<nat, string>, n: nat) {
    forall j | 0 <= j < |res| :: res[j] in texts && res[j] < n
  }

  lemma {:induction false} FitsAll(res: seq<nat>, texts: map<nat, string>, n: nat)
    requires Ascending(res) && res != [] && res[|res| - 1] < n && forall i | i in res :: i in texts
    ensures Fits(res, texts, n)
  {
  }

  lemma {:induction false} AscendingLast(res: seq<nat>)
    requires Ascending(res) && res != []
    ensures forall i | i in res :: i <= res[|res| - 1]
  {
  }

  /** The block list with the texts of the first `j` listed blocks put in. */
  ghost function Overlaid(base: seq<string>, texts: map<nat, string>, res: seq<nat>, j: nat): (r: seq<string>)
    requires j <= |res| && Fits(res, texts, |base|)
    ensures |r| == |base|
  {
    if j == 0 then base else Overlaid(base, texts, res, j - 1)[res[j - 1] := texts[res[j - 1]]]
  }

  lemma {:induction false} OverlaidContents(base: seq<string>, texts: map<nat, string>, res: seq<nat>, j: nat)
    requires j <= |res| && Fits(res, texts, |base|)
    ensures forall i | 0 <= i < |base| :: Overlaid(base, texts, res, j)[i] == if i in res[..j] then texts[i] else base[i]
  {
    if j > 0 {
      OverlaidContents(base, texts, res, j - 1);
      assert res[..j] == res[..j - 1] + [res[j - 1]];
    }
  }

  function Unmarked(written: set<nat>, res: seq<nat>, j: nat): set<nat>
    requires j <= |res|
  {
    if j == 0 then written else Unmarked(written, res, j - 1) - {res[j - 1]}
  }

  lemma {:induction false} UnmarkedContents(written: set<nat>, res: seq<nat>, j: nat)
    requires j <= |res|
    ensures forall i :: i in Unmarked(written, res, j) <==> i in written && i !in res[..j]
  {
    if j > 0 {
      UnmarkedContents(written, res, j - 1);
      assert res[..j] == res[..j - 1] + [res[j - 1]];
    }
  }

  method MulAdd(i: nat, bs: int32, n: nat) returns (r: int)
    requires 0 < bs
    ensures r == Start(i, bs) + n
  {
    StartIsProduct(i, bs);
    r := i * bs + n;
  }

  ghost predicate Ascending(res: seq<nat>) { forall i, j | 0 <= i < j < |res| :: res[i] < res[j] }

  function Inserted(res: seq<nat>, x: nat): seq<nat> {
    if res == [] || x < res[0] then [x] + res else [res[0]] + Inserted(res[1..], x)
  }

  lemma {:induction false} InsertedContents(res: seq<nat>, x: nat)
    requires Ascending(res) && x !in res
    ensures forall i :: i in Inserted(res, x) <==> i in res || i == x
    ensures Ascending(Inserted(res, x))
  {
    if res != [] && res[0] <= x {
      InsertedContents(res[1..], x);
      var tail := Inserted(res[1..], x);
      forall k | 0 <= k < |tail| ensures res[0] < tail[k] {
        assert tail[k] in tail;
        assert tail[k] in res[1..] || tail[k] == x;
      }
    } else if res != [] {
      assert forall k | 0 <= k < |res| :: x < res[k];
    }
  }

  function Resized(sub: seq<string>, n: nat): (r: seq<string>)
    requires |sub| <= n
    ensures |r| == n && forall i | 0 <= i < n :: r[i] == if i < |sub| then sub[i] else ""
    decreases n - |sub|
  {
    if |sub| == n then sub else Resized(sub + [""], n)
  }

  /** What fsync publishes: marked blocks replaced, the list long enough for the last of them, and
      the size reaching to the end of that block. */
  ghost predicate Flushed(sub: seq<string>, filesize: nat, cache: Cache, written: set<nat>, bs: nat, texts: map<nat, string>, pub: Publish)
  {
    (forall i | i in written :: i in texts && i in cache) &&
    exists last ::
      && last in written && (forall i | i in written :: i <= last)
      && |pub.sub| == (if |sub| <= last then last + 1 else |sub|)
      && pub.filesize == (if filesize > Start(last, bs) + |cache[last]| then filesize else Start(last, bs) + |cache[last]|)
      && forall i | 0 <= i < |pub.sub| :: pub.sub[i] == if i in written then texts[i] else if i < |sub| then sub[i] else ""
  }

  lemma {:induction false} FlushedAt(sub: seq<string>, filesize: nat, cache: Cache, written: set<nat>, bs: nat, texts: map<nat, string>, pub: Publish, last: nat)
    requires Flushed(sub, filesize, cache, written, bs, texts, pub)
    requires last in written && forall i | i in written :: i <= last
    ensures |pub.sub| == if |sub| <= last then last + 1 else |sub|
    ensures pub.filesize == if filesize > Start(last, bs) + |cache[last]| then filesize else Start(last, bs) + |cache[last]|
    ensures forall i | 0 <= i < |pub.sub| :: pub.sub[i] == if i in written then texts[i] else if i < |sub| then sub[i] else ""
  {
  }

  /** A block of the local inode that the remote one does not have, or has with other fragments. */
  predicate Stale(local: seq<string>, remote: seq<string>, k: nat) {
    k < |local| && (|remote| <= k || local[k] != remote[k])
  }

  /** The block files that survive a change of the inode. */
  function Kept(cache: Cache, local: seq<string>, remote: seq<string>): Cache {
    map k | k in cache && !Stale(local, remote, k) :: cache[k]
  }

  /** The block files once the first `n` blocks were compared. */
  function Purged(cache: Cache, local: seq<string>, remote: seq<string>, n: nat): Cache {
    if n == 0 then cache
    else if Stale(local, remote, n - 1) then Purged(cache, local, remote, n - 1) - {n - 1}
    else Purged(cache, local, remote, n - 1)
  }

  lemma {:induction false} PurgedContents(cache: Cache, local: seq<string>, remote: seq<string>, n: nat)
    ensures Purged(cache, local, remote, n) == map k | k in cache && !(k < n && Stale(local, remote, k)) :: cache[k]
  {
    if n > 0 {
      PurgedContents(cache, local, remote, n - 1);
    }
  }

  lemma {:induction false} PurgedIsKept(cache: Cache, local: seq<string>, remote: seq<string>, n: nat)
    requires |local| <= n
    ensures Purged(cache, local, remote, n) == Kept(cache, local, remote)
  {
    PurgedContents(cache, local, remote, n);
  }

  /** A cache that is coherent with the local inode is coherent with the remote one after the update. */
  lemma {:induction false} KeptIsCoherent(dec: Decoder, cache: Cache, local: seq<string>, remote: seq<string>)
    requires Coherent(dec, cache, local)
    ensures Coherent(dec, Kept(cache, local, remote), remote)
  {
  }

  lemma {:induction false} ReadRange(bs: nat, filesize: nat, offset: nat, n: nat)
    requires bs > 0 && offset + n <= filesize
    ensures Start(Index(offset, bs), bs) <= offset
    ensures Start(Index(offset + n, bs) + 1, bs) <= filesize + bs && Index(offset + n, bs) + 1 <= filesize + bs
  {
    IndexBounds(offset, bs);
    IndexBounds(offset + n, bs);
  }

  /** Through a coherent cache a read finds the decoded blocks. */
  lemma {:induction false} CoherentRead(dec: Decoder, cache: Cache, sub: seq<string>, bs: nat, filesize: nat, offset: nat, size: nat)
    requires WellCut(Decodeds(dec, sub), bs, filesize) && Coherent(dec, cache, sub)
    ensures ReadOf(Founds(dec, cache, sub), bs, filesize, offset, size) == Some(Slice(Content(Decodeds(dec, sub), bs, filesize), offset, size))
  {
    CoherentFinds(dec, cache, sub, |sub|);
    ReadSlice(Decodeds(dec, sub), bs, filesize, offset, size);
  }

  /** The next block of a read: what it adds to the output and to the cache. */
  lemma {:induction false} ReadStep(dec: Decoder, cache: Cache, sub: seq<string>, bs: nat, lo: nat, i: nat)
    requires lo <= i < |sub|
    ensures Gather(Founds(dec, cache, sub), bs, lo, i + 1) == Gather(Founds(dec, cache, sub), bs, lo, i) + Found(dec, cache, sub, i)
    ensures var filled := Filled(dec, cache, sub, lo, i);
            && (Cached(filled, i) <==> Cached(cache, i))
            && (Cached(filled, i) ==> filled[i] == cache[i] && Filled(dec, cache, sub, lo, i + 1) == filled)
            && Filled(dec, cache, sub, lo, i + 1) == filled[i := Found(dec, cache, sub, i)]
  {
    FoundAt(dec, cache, sub, |sub|, i);
    FilledContents(dec, cache, sub, lo, i);
  }

  /** What the reads before a write bring into the cache: the block it starts in, if it starts in the middle of a
      block and before the end of the file, and the block it ends in, if that is another one and the same holds of the
      end. A block file that is there and not empty stays; the others are decoded. Nothing else changes. */
  lemma {:induction false} PrefetchBrings(dec: Decoder, cache: Cache, sub: seq<string>, bs: nat, filesize: nat, offset: nat, size: nat, i: nat)
    requires bs > 0 && filesize <= Start(|sub|, bs)
    ensures var end := offset + size;
            var wanted := || (i == offset / bs && offset < filesize && offset % bs != 0)
                          || (i == end / bs && end < filesize && end % bs != 0 && offset / bs != end / bs);
            var after := Prefetched(dec, cache, sub, bs, filesize, offset, size);
            && (i in after <==> i in cache || wanted)
            && (wanted ==> i < |sub| && after[i] == if i in cache && cache[i] != "" then cache[i] else Decode(dec, sub[i]))
            && (!wanted && i in cache ==> after[i] == cache[i])
  {
    IndexIsQuotient(offset, bs);
    IndexIsQuotient(offset + size, bs);
    PrefetchedAt(dec, cache, sub, bs, filesize, offset, size, i);
  }

  /** The block file after block `k` was read if it was wanted. */
  lemma {:induction false} ReadIfWanted(dec: Decoder, cache: Cache, sub: seq<string>, k: nat, wanted: bool, i: nat)
    requires wanted ==> k < |sub|
    ensures var after := if wanted then Filled(dec, cache, sub, k, k + 1) else cache;
            && (i in after <==> i in cache || (wanted && i == k))
            && (wanted && i == k ==> after[i] == Found(dec, cache, sub, i))
            && (!(wanted && i == k) && i in cache ==> after[i] == cache[i])
  {
    FilledContents(dec, cache, sub, k, k + 1);
  }

  lemma {:induction false} PrefetchedAt(dec: Decoder, cache: Cache, sub: seq<string>, bs: nat, filesize: nat, offset: nat, size: nat, i: nat)
    requires bs > 0 && filesize <= Start(|sub|, bs)
    ensures var first, last := Index(offset, bs), Index(offset + size, bs);
            var wanted := || (i == first && offset < filesize && Within(offset, bs) != 0)
                          || (i == last && offset + size < filesize && Within(offset + size, bs) != 0 && first != last);
            var after := Prefetched(dec, cache, sub, bs, filesize, offset, size);
            && (i in after <==> i in cache || wanted)
            && (wanted ==> i < |sub| && after[i] == Found(dec, cache, sub, i))
            && (!wanted && i in cache ==> after[i] == cache[i])
  {
    var first, last := Index(offset, bs), Index(offset + size, bs);
    var atStart := offset < filesize && Within(offset, bs) != 0;
    var atEnd := offset + size < filesize && first != last && Within(offset + size, bs) != 0;
    assert atStart ==> first < |sub| by { if atStart { ReadableBlock(bs, offset, filesize, |sub|); } }
    assert atEnd ==> last < |sub| by { if atEnd { ReadableBlock(bs, offset + size, filesize, |sub|); } }
    ReadIfWanted(dec, cache, sub, first, atStart, i);
    ReadIfWanted(dec, if atStart then Filled(dec, cache, sub, first, first + 1) else cache, sub, last, atEnd, i);
  }

  /** The cache after the reads that write_data makes before it writes over the middle of a block. */
  function Prefetched(dec: Decoder, cache: Cache, sub: seq<string>, bs: nat, filesize: nat, offset: nat, size: nat): Cache
    requires bs > 0
  {
    var first, second := Index(offset, bs), Index(offset + size, bs) + 1;
    var c := if offset < filesize && Within(offset, bs) != 0 then Filled(dec, cache, sub, first, first + 1) else cache;
    if offset + size < filesize && first != second - 1 && Within(offset + size, bs) != 0
    then Filled(dec, c, sub, second - 1, second) else c
  }

  /** A position inside the file falls into one of its blocks. */
  lemma {:induction false} ReadableBlock(bs: nat, offset: nat, filesize: nat, n: nat)
    requires bs > 0 && offset < filesize <= Start(n, bs)
    ensures Index(offset, bs) < n && Index(offset, bs) <= offset
    ensures Start(Index(offset, bs) + 1, bs) <= offset + bs
  {
    IndexBounds(offset, bs);
    if Index(offset, bs) >= n {
      StartLe(n, Index(offset, bs), bs);
    }
  }

  /** The bounds write_data computes for a block cut the string where one piece ends and the next starts. */
  lemma {:induction false} PieceLength(bs: nat, offset: nat, size: nat, i: nat)
    requires bs > 0 && Index(offset, bs) <= i <= Index(offset + size, bs)
    ensures var left := if i == Index(offset, bs) then Within(offset, bs) else 0;
            var right := if i == Index(offset + size, bs) then Within(offset + size, bs) else bs;
            && 0 <= PieceStart(bs, offset, i) <= PieceEnd(bs, offset, size, i) <= size
            && right - left == PieceEnd(bs, offset, size, i) - PieceStart(bs, offset, i)
            && PieceAt(bs, offset, size, i) == PieceStart(bs, offset, i)
            && PieceAt(bs, offset, size, i + 1) == PieceEnd(bs, offset, size, i)
  {
    IndexBounds(offset, bs);
    IndexBounds(offset + size, bs);
    if i > Index(offset, bs) {
      StartLe(Index(offset, bs) + 1, i, bs);
    }
    if i < Index(offset + size, bs) {
      StartLe(i + 1, Index(offset + size, bs), bs);
    } else {
      StartLe(i, Index(offset + size, bs), bs);
    }
  }

  lemma {:induction false} FilledPast(dec: Decoder, cache: Cache, sub: seq<string>, lo: nat, mid: nat, hi: nat)
    requires |sub| <= mid <= hi && lo <= mid
    ensures Filled(dec, cache, sub, lo, hi) == Filled(dec, cache, sub, lo, mid)
    decreases hi
  {
    if mid < hi {
      FilledPast(dec, cache, sub, lo, mid, hi - 1);
    }
  }

  lemma {:induction false} ReadPadding(dec: Decoder, cache: Cache, sub: seq<string>, blocks: Blocks, bs: nat, lo: nat, mid: nat, hi: nat)
    requires |blocks| == |sub| <= mid && lo <= mid <= hi
    ensures Gather(blocks, bs, lo, hi) == Gather(blocks, bs, lo, mid) + Zeros(Start(hi - mid, bs))
    ensures Filled(dec, cache, sub, lo, hi) == Filled(dec, cache, sub, lo, mid)
  {
    GatherSplit(blocks, bs, lo, mid, hi);
    GatherZeros(blocks, bs, mid, hi);
    FilledPast(dec, cache, sub, lo, mid, hi);
  }
}
