/** A file written from its start by any number of consecutive writes, closed once, and read again. */
module WriteSession {
  import opened Results
  import opened FlatFile
  import opened OpenFile

  /** The bytes the first `n` writes hold together. */
  function Written(writes: seq<string>, n: nat): string
    requires n <= |writes|
  {
    if n == 0 then "" else Written(writes, n - 1) + writes[n - 1]
  }

  function Concat(writes: seq<string>): string { Written(writes, |writes|) }

  lemma {:induction false} WrittenLength(writes: seq<string>, m: nat, n: nat)
    requires m <= n <= |writes|
    ensures |Written(writes, m)| <= |Written(writes, n)|
  {
    if m < n {
      WrittenLength(writes, m, n - 1);
    }
  }

  /** How many block files a session that wrote `data` leaves; no write at all leaves none. */
  function Files(data: string, bs: nat, begun: bool): nat
    requires bs > 0
  {
    if begun then Index(|data|, bs) + 1 else 0
  }

  /** File `i` is block `i` of `data`, there and marked as written if it is one of the first `n`. */
  ghost predicate HoldsAt(cache: Cache, written: set<nat>, bs: nat, data: string, n: nat, i: nat) {
    (i in cache <==> i < n) && (i in written <==> i < n) && FileAt(cache, i) == Cut(data, bs, i)
  }

  /** The block files are the blocks of `data`, and each of them is marked as written. */
  ghost predicate Holds(cache: Cache, written: set<nat>, bs: nat, data: string, n: nat) {
    forall i: nat :: HoldsAt(cache, written, bs, data, n, i)
  }

  lemma {:induction false} CutBefore(data: string, s: string, bs: nat, i: nat)
    requires Start(i, bs) + bs <= |data|
    ensures Cut(data + s, bs, i) == Cut(data, bs, i)
  {
  }

  lemma {:induction false} CutAcross(data: string, s: string, bs: nat, i: nat)
    requires Start(i, bs) <= |data| < Start(i, bs) + bs
    ensures Cut(data + s, bs, i) == Cut(data, bs, i) + Piece(bs, |data|, s, i)
  {
    var lo, hi := Start(i, bs), Min(Start(i, bs) + bs, |data| + |s|);
    assert (data + s)[lo..hi] == data[lo..] + s[..hi - |data|];
  }

  lemma {:induction false} CutAfter(data: string, s: string, bs: nat, i: nat)
    requires |data| < Start(i, bs) <= |data| + |s|
    ensures Cut(data + s, bs, i) == Cut(data, bs, i) + Piece(bs, |data|, s, i)
  {
    var lo, hi := Start(i, bs), Min(Start(i, bs) + bs, |data| + |s|);
    assert (data + s)[lo..hi] == s[lo - |data|..hi - |data|];
  }

  /** A block of the longer string is the block of the shorter one followed by the piece of the addition. */
  lemma {:induction false} CutExtends(data: string, s: string, bs: nat, i: nat)
    requires bs > 0 && i <= Index(|data| + |s|, bs)
    ensures Cut(data + s, bs, i) ==
            if Index(|data|, bs) <= i then Cut(data, bs, i) + Piece(bs, |data|, s, i) else Cut(data, bs, i)
  {
    var first := Index(|data|, bs);
    IndexBounds(|data|, bs);
    if i < first {
      StartLe(i + 1, first, bs);
      CutBefore(data, s, bs, i);
    } else if i == first {
      CutAcross(data, s, bs, i);
    } else {
      StartLe(first + 1, i, bs);
      IndexBounds(|data| + |s|, bs);
      StartLe(i, Index(|data| + |s|, bs), bs);
      CutAfter(data, s, bs, i);
    }
  }

  /** Past the end there is nothing to cut. */
  lemma {:induction false} CutPast(data: string, bs: nat, i: nat)
    requires bs > 0 && Index(|data|, bs) < i
    ensures Cut(data, bs, i) == ""
  {
    IndexBounds(|data|, bs);
    StartLe(Index(|data|, bs) + 1, i, bs);
  }

  /** What one write does to one block file. */
  lemma {:induction false} WriteExtendsAt(cache: Cache, written: set<nat>, bs: nat, data: string, begun: bool, s: string, i: nat)
    requires bs > 0 && (begun || data == "") && HoldsAt(cache, written, bs, data, Files(data, bs, begun), i)
    ensures var first, second := Index(|data|, bs), Index(|data| + |s|, bs) + 1;
            HoldsAt(Appended(cache, bs, |data|, s, first, second), Marked(written, first, second), bs, data + s, second, i)
  {
    var first, second := Index(|data|, bs), Index(|data| + |s|, bs) + 1;
    IndexLe(|data|, |data| + |s|, bs);
    AppendedContents(cache, bs, |data|, s, first, second, i);
    MarkedContents(written, first, second, i);
    if i < second {
      CutExtends(data, s, bs, i);
    } else {
      CutPast(data, bs, i);
      CutPast(data + s, bs, i);
    }
  }

  /** A write at the end of what was written so far extends it by its string. */
  lemma {:induction false} WriteExtends(cache: Cache, written: set<nat>, bs: nat, data: string, begun: bool, s: string)
    requires bs > 0 && (begun || data == "") && Holds(cache, written, bs, data, Files(data, bs, begun))
    ensures var first, second := Index(|data|, bs), Index(|data| + |s|, bs) + 1;
            Holds(Appended(cache, bs, |data|, s, first, second), Marked(written, first, second), bs, data + s, Files(data + s, bs, true))
  {
    var first, second := Index(|data|, bs), Index(|data| + |s|, bs) + 1;
    var now, marks := Appended(cache, bs, |data|, s, first, second), Marked(written, first, second);
    assert |data + s| == |data| + |s|;
    forall i: nat ensures HoldsAt(now, marks, bs, data + s, second, i) {
      assert HoldsAt(cache, written, bs, data, Files(data, bs, begun), i);
      WriteExtendsAt(cache, written, bs, data, begun, s, i);
    }
  }

  /** Any number of writes, each where the one before it ended. */
  method WriteAll(f: File, writes: seq<string>)
    requires 0 < f.blockSize && f.sub == [] && f.filesize == 0 && f.cache == map[] && f.written == {}
    requires |Concat(writes)| + f.blockSize < INT_LIMIT
    modifies f`cache, f`written
    ensures Holds(f.cache, f.written, f.blockSize, Concat(writes), Files(Concat(writes), f.blockSize, writes != []))
  {
    var offset := 0;
    for n := 0 to |writes|
      invariant offset == |Written(writes, n)|
      invariant Holds(f.cache, f.written, f.blockSize, Written(writes, n), Files(Written(writes, n), f.blockSize, n > 0))
    {
      WrittenLength(writes, n + 1, |writes|);
      WriteExtends(f.cache, f.written, f.blockSize, Written(writes, n), n > 0, writes[n]);
      f.WriteData(offset, writes[n]);
      offset := offset + |writes[n]|;
    }
  }

  /** Each block has a fragment list that decodes to it. */
  ghost predicate Encodes(dec: Decoder, texts: map<nat, string>, bs: nat, data: string)
    requires bs > 0
  {
    forall i: nat | i <= Index(|data|, bs) :: i in texts && Decode(dec, texts[i]) == Cut(data, bs, i)
  }

  /** What a reader finds published: an inode whose blocks decode to the data. */
  ghost predicate Published(dec: Decoder, bs: nat, pub: Publish, cache: Cache, data: string) {
    && pub.filesize == |data|
    && WellCut(Decodeds(dec, pub.sub), bs, pub.filesize)
    && Content(Decodeds(dec, pub.sub), bs, pub.filesize) == data
    && Coherent(dec, cache, pub.sub)
  }

  /** The published list is as long as the blocks written, and each entry is the text of its block. */
  lemma {:induction false} SessionFlushes(cache: Cache, written: set<nat>, bs: nat, data: string, texts: map<nat, string>, pub: Publish)
    requires bs > 0 && Holds(cache, written, bs, data, Files(data, bs, true))
    requires forall i: nat | i <= Index(|data|, bs) :: i in texts
    requires Flushed([], 0, cache, written, bs, texts, pub)
    ensures |pub.sub| == Index(|data|, bs) + 1 && pub.filesize == |data|
    ensures forall i: nat | i < |pub.sub| :: i in texts && pub.sub[i] == texts[i]
  {
    var n := Index(|data|, bs);
    SessionMarks(cache, written, bs, data, n + 1);
    FlushedAt([], 0, cache, written, bs, texts, pub, n);
    assert HoldsAt(cache, written, bs, data, n + 1, n);
    IndexBounds(|data|, bs);
  }

  lemma {:induction false} SessionMarks(cache: Cache, written: set<nat>, bs: nat, data: string, n: nat)
    requires Holds(cache, written, bs, data, n)
    ensures forall i: nat :: i in written <==> i < n
    ensures forall i: nat :: i in cache <==> i < n
  {
    forall i: nat ensures (i in written <==> i < n) && (i in cache <==> i < n) {
      assert HoldsAt(cache, written, bs, data, n, i);
    }
  }

  lemma {:induction false} SessionIsCoherent(dec: Decoder, cache: Cache, written: set<nat>, bs: nat, data: string, texts: map<nat, string>, sub: seq<string>)
    requires bs > 0 && Holds(cache, written, bs, data, Files(data, bs, true)) && Encodes(dec, texts, bs, data)
    requires |sub| == Index(|data|, bs) + 1 && forall i: nat | i < |sub| :: i in texts && sub[i] == texts[i]
    ensures Coherent(dec, cache, sub)
  {
    forall i | i in cache ensures i < |sub| && cache[i] == Decode(dec, sub[i]) {
      assert HoldsAt(cache, written, bs, data, |sub|, i);
    }
  }

  /** Closing a session that wrote something publishes exactly the data written, on block boundaries too,
      and leaves a cache that fits the published inode. */
  lemma {:induction false} SessionPublishes(dec: Decoder, cache: Cache, written: set<nat>, bs: nat, data: string, texts: map<nat, string>, pub: Publish)
    requires bs > 0 && Holds(cache, written, bs, data, Files(data, bs, true)) && Encodes(dec, texts, bs, data)
    requires Flushed([], 0, cache, written, bs, texts, pub)
    ensures Published(dec, bs, pub, cache, data)
  {
    SessionFlushes(cache, written, bs, data, texts, pub);
    DecodedCuts(dec, texts, bs, data, pub.sub);
    SessionIsCoherent(dec, cache, written, bs, data, texts, pub.sub);
  }

  lemma {:induction false} DecodedCuts(dec: Decoder, texts: map<nat, string>, bs: nat, data: string, sub: seq<string>)
    requires bs > 0 && Encodes(dec, texts, bs, data) && |sub| == Index(|data|, bs) + 1
    requires forall i: nat | i < |sub| :: i in texts && sub[i] == texts[i]
    ensures WellCut(Decodeds(dec, sub), bs, |data|) && Content(Decodeds(dec, sub), bs, |data|) == data
  {
    var blocks := Decodeds(dec, sub);
    forall i | 0 <= i < |sub| ensures blocks[i] == Cut(data, bs, i) {
      DecodedAt(dec, sub, |sub|, i);
    }
    assert blocks == CutAll(data, bs);
    CutAllIsWellCut(data, bs);
    assert data[..|data|] == data;
  }

  lemma {:induction false} SessionIsFlushable(cache: Cache, written: set<nat>, bs: nat, data: string, begun: bool, texts: map<nat, string>)
    requires bs > 0 && Holds(cache, written, bs, data, Files(data, bs, begun)) && |data| < INT_LIMIT
    requires forall i: nat | i <= Index(|data|, bs) :: i in texts
    ensures Flushable(cache, written, bs, texts)
    ensures written == {} <==> !begun
  {
    var n := Files(data, bs, begun);
    IndexBounds(|data|, bs);
    SessionMarks(cache, written, bs, data, n);
    assert begun ==> 0 in written;
    forall i | i in written ensures Start(i, bs) + |cache[i]| <= |data| && i <= |data| {
      assert HoldsAt(cache, written, bs, data, n, i);
      StartLe(i, Index(|data|, bs), bs);
    }
  }

  /** close: the session's blocks are encoded and put_ok is sent, unless nothing was written. */
  method WriteAndClose(f: File, writes: seq<string>, texts: map<nat, string>) returns (pub: Option<Publish>)
    requires 0 < f.blockSize && f.sub == [] && f.filesize == 0 && f.cache == map[] && f.written == {}
    requires |Concat(writes)| + f.blockSize < INT_LIMIT && Encodes(f.dec, texts, f.blockSize, Concat(writes))
    modifies f`cache, f`written, f`sub, f`filesize
    ensures pub.None? <==> writes == []
    ensures pub.Some? ==> Published(f.dec, f.blockSize, pub.value, f.cache, Concat(writes))
  {
    WriteAll(f, writes);
    ghost var data, marks := Concat(writes), f.written;
    SessionIsFlushable(f.cache, marks, f.blockSize, data, writes != [], texts);
    pub := f.Close(texts);
    if pub.Some? {
      SessionPublishes(f.dec, f.cache, marks, f.blockSize, data, texts, pub.value);
    }
  }

  /** The whole session: write, close, open again with the block files the writer left or with none, and read. */
  method WriteCloseRead(blockSize: int32, dec: Decoder, writes: seq<string>, texts: map<nat, string>, warm: bool, offset: nat, size: nat)
    returns (r: string)
    requires 0 < blockSize && |Concat(writes)| + blockSize < INT_LIMIT && Encodes(dec, texts, blockSize, Concat(writes))
    ensures r == Slice(Concat(writes), offset, size)
  {
    var writer := new File(blockSize, dec, [], 0, map[]);
    var pub := WriteAndClose(writer, writes, texts);
    if pub.None? {
      return "";
    }
    var reader := new File(blockSize, dec, pub.value.sub, pub.value.filesize, if warm then writer.cache else map[]);
    var read := reader.ReadData(offset, size);
    r := read.value;
  }
}
