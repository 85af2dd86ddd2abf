/** One write at the end of a file that was closed before: its last bytes survive exactly when the
    write finds them, and them alone, in the cache. */
module AppendSession {
  import opened Results
  import opened FlatFile
  import opened OpenFile
  import opened WriteSession
  import opened AppendedFile
  import PutGet

  ghost predicate EncodesFiles(dec: Decoder, cache: Cache, written: set<nat>, texts: map<nat, string>) {
    forall i | i in written :: i in texts && i in cache && Decode(dec, texts[i]) == cache[i]
  }

  /** What a write of `s` at the end of `data` does to block file `i` and its mark. */
  ghost predicate WroteFile(cache: Cache, now: Cache, marks: set<nat>, bs: nat, data: string, s: string, i: nat)
    requires bs > 0
  {
    var first, last := Index(|data|, bs), Index(|data| + |s|, bs);
    && (i in marks <==> first <= i <= last)
    && (i in now <==> i in cache || first <= i <= last)
    && FileAt(now, i) == if first <= i <= last then FileAt(cache, i) + Piece(bs, |data|, s, i) else FileAt(cache, i)
  }

  /** write_data does that to every block file. */
  lemma {:induction false} WriteDataWrote(cache: Cache, bs: nat, data: string, s: string, i: nat)
    requires bs > 0
    ensures var first, second := Index(|data|, bs), Index(|data| + |s|, bs) + 1;
            WroteFile(cache, Appended(cache, bs, |data|, s, first, second), Marked({}, first, second), bs, data, s, i)
  {
    var first, second := Index(|data|, bs), Index(|data| + |s|, bs) + 1;
    AppendedContents(cache, bs, |data|, s, first, second, i);
    MarkedContents({}, first, second, i);
  }

  /** A file of content `data`, the block files at hand when it is opened, the string `s` written at its end,
      the block files and marks after that, and what closing then publishes. */
  datatype Append = Append(dec: Decoder, bs: nat, sub: seq<string>, data: string, cache: Cache,
                           s: string, now: Cache, marks: set<nat>, texts: map<nat, string>, pub: Publish)
  {
    function First(): nat
      requires bs > 0
    {
      Index(|data|, bs)
    }

    function Last(): nat
      requires bs > 0
    {
      Index(|data| + |s|, bs)
    }

    /** What the write finds in the file of the block it starts in. */
    function Tail(): string
      requires bs > 0
    {
      FileAt(cache, Index(|data|, bs))
    }

    /** The write finds the bytes that it has to come after and nothing else, and no block lies beyond it. */
    ghost predicate TailAtHand()
      requires bs > 0
    {
      && |Tail()| == Within(|data|, bs)
      && (forall i | First() < i <= Last() :: FileAt(cache, i) == "")
      && |sub| <= Last() + 1
    }

    /** What the write did to block file `i`. */
    ghost predicate WroteAt(i: nat)
      requires bs > 0
    {
      WroteFile(cache, now, marks, bs, data, s, i)
    }

    /** The file before: any blocks that hold its content, and block files that fit them. */
    ghost predicate Opened() {
      HoldsContent(Decodeds(dec, sub), bs, data) && Coherent(dec, cache, sub)
    }

    /** The file before, the write, and the fragments its blocks are encoded to. */
    ghost predicate Wrote() {
      Opened() && (forall i: nat :: WroteAt(i)) && EncodesFiles(dec, now, marks, texts)
    }

    /** The same, and the close. */
    ghost predicate Done() {
      Wrote() && Flushed(sub, |data|, now, marks, bs, texts, pub)
    }
  }

  lemma {:induction false} FirstLe(a: Append)
    requires a.bs > 0
    ensures a.First() <= a.Last()
  {
    IndexLe(|a.data|, |a.data| + |a.s|, a.bs);
  }

  // ----- what is published -----

  /** The published list and size. */
  lemma {:induction false} Publishes(a: Append)
    requires a.Done()
    ensures |a.pub.sub| == if |a.sub| <= a.Last() then a.Last() + 1 else |a.sub|
    ensures var end := Start(a.Last(), a.bs) + |FileAt(a.now, a.Last())|; a.pub.filesize == if |a.data| > end then |a.data| else end
    ensures forall i | 0 <= i < |a.pub.sub| ::
              a.pub.sub[i] == if i in a.marks then a.texts[i] else if i < |a.sub| then a.sub[i] else ""
  {
    LastMark(a);
    FlushedAt(a.sub, |a.data|, a.now, a.marks, a.bs, a.texts, a.pub, a.Last());
  }

  lemma {:induction false} LastMark(a: Append)
    requires a.Wrote()
    ensures a.Last() in a.marks && a.Last() in a.now && forall i | i in a.marks :: i <= a.Last()
  {
    FirstLe(a);
    var last: nat := a.Last();
    assert a.WroteAt(last);
    forall i | i in a.marks ensures i <= last {
      assert a.WroteAt(i);
    }
  }

  /** Below the write the blocks are those of the content. */
  lemma {:induction false} BlockBelow(a: Append, i: nat)
    requires a.Opened() && i < a.First()
    ensures i < |a.sub| && Decode(a.dec, a.sub[i]) == Cut(a.data, a.bs, i)
  {
    IndexBounds(|a.data|, a.bs);
    StartLe(i + 1, a.First(), a.bs);
    FullBlockIs(Decodeds(a.dec, a.sub), a.bs, a.data, i);
    DecodedAt(a.dec, a.sub, |a.sub|, i);
  }

  /** Block by block: what the content had, then what the files hold, then whatever was there before. */
  ghost predicate PublishedAt(a: Append, i: nat)
    requires a.bs > 0
  {
    i < |a.pub.sub| &&
    if i < a.First() then Decode(a.dec, a.pub.sub[i]) == Cut(a.data, a.bs, i)
    else if i <= a.Last() then Decode(a.dec, a.pub.sub[i]) == FileAt(a.cache, i) + Piece(a.bs, |a.data|, a.s, i)
    else i < |a.sub| && a.pub.sub[i] == a.sub[i]
  }

  lemma {:induction false} TouchedAfter(a: Append, i: nat)
    requires a.Wrote() && a.First() <= i <= a.Last()
    ensures i in a.marks && i in a.texts && Decode(a.dec, a.texts[i]) == FileAt(a.cache, i) + Piece(a.bs, |a.data|, a.s, i) == FileAt(a.now, i)
  {
    assert a.WroteAt(i);
  }

  lemma {:induction false} UntouchedAfter(a: Append, i: nat)
    requires a.Wrote() && !(a.First() <= i <= a.Last())
    ensures i !in a.marks
  {
    assert a.WroteAt(i);
  }

  lemma {:induction false} BlockAfter(a: Append, i: nat)
    requires a.Done() && i < |a.pub.sub|
    ensures PublishedAt(a, i)
  {
    assert a.pub.sub[i] == (if i in a.marks then a.texts[i] else if i < |a.sub| then a.sub[i] else "")
           && (i > a.Last() ==> i < |a.sub|) by { Publishes(a); }
    if i < a.First() {
      UntouchedAfter(a, i);
      BlockBelow(a, i);
    } else if i <= a.Last() {
      TouchedAfter(a, i);
    } else {
      UntouchedAfter(a, i);
    }
  }

  /** Nothing of the block files fits less afterwards. */
  lemma {:induction false} CacheAfter(a: Append)
    requires a.Done()
    ensures Coherent(a.dec, a.now, a.pub.sub)
  {
    Publishes(a);
    FirstLe(a);
    forall i | i in a.now ensures i < |a.pub.sub| && (a.now[i] == "" || a.now[i] == Decode(a.dec, a.pub.sub[i])) {
      assert a.WroteAt(i);
    }
  }

  // ----- the published file apart from how it came about -----

  /** The blocks and the size that are published, and the block files that the write found. */
  function AfterOf(a: Append): After {
    After(Decodeds(a.dec, a.pub.sub), a.bs, a.pub.filesize, a.data, a.s, a.cache)
  }

  /** The tail found is the content's last part, or more than that, or nothing. */
  lemma {:induction false} TailIs(a: Append)
    requires a.Opened()
    ensures a.Tail() == "" || Cut(a.data, a.bs, a.First()) <= a.Tail()
  {
    var first := a.First();
    IndexBounds(|a.data|, a.bs);
    if a.Tail() != "" && Start(first, a.bs) < |a.data| {
      DecodedAt(a.dec, a.sub, |a.sub|, first);
      BlockBegins(Decodeds(a.dec, a.sub), a.bs, a.data, first);
    }
  }

  lemma {:induction false} BelowShape(a: Append, i: nat)
    requires a.Done() && i < a.First()
    ensures AfterOf(a).BelowAt(i)
  {
    assert i < |a.pub.sub| by { Publishes(a); FirstLe(a); }
    assert PublishedAt(a, i) by { BlockAfter(a, i); }
    DecodedAt(a.dec, a.pub.sub, |a.pub.sub|, i);
  }

  lemma {:induction false} TouchedShape(a: Append, i: nat)
    requires a.Done() && a.First() <= i <= a.Last()
    ensures AfterOf(a).TouchedAt(i)
  {
    assert i < |a.pub.sub| by { Publishes(a); }
    assert PublishedAt(a, i) by { BlockAfter(a, i); }
    DecodedAt(a.dec, a.pub.sub, |a.pub.sub|, i);
  }

  lemma {:induction false} DoneSize(a: Append)
    requires a.Done()
    ensures AfterOf(a).SizeFits()
  {
    FirstLe(a);
    var last: nat := a.Last();
    assert last < |a.pub.sub| by { Publishes(a); }
    assert |Decodeds(a.dec, a.pub.sub)[last]| == |FileAt(a.now, last)| by {
      TouchedAfter(a, last);
      assert PublishedAt(a, last) by { BlockAfter(a, last); }
      DecodedAt(a.dec, a.pub.sub, |a.pub.sub|, last);
    }
    Publishes(a);
  }

  lemma {:induction false} DoneBelow(a: Append)
    requires a.Done()
    ensures AfterOf(a).AllBelow()
  {
    forall i: nat | i < a.First() ensures AfterOf(a).BelowAt(i) {
      BelowShape(a, i);
    }
  }

  lemma {:induction false} DoneTouched(a: Append)
    requires a.Done()
    ensures AfterOf(a).AllTouched()
  {
    forall i: nat | a.First() <= i <= a.Last() ensures AfterOf(a).TouchedAt(i) {
      TouchedShape(a, i);
    }
  }

  lemma {:induction false} DoneShape(a: Append)
    requires a.Done()
    ensures AfterOf(a).Shape()
  {
    assert AfterOf(a).SizeFits() by { DoneSize(a); }
    assert AfterOf(a).AllBelow() by { DoneBelow(a); }
    assert AfterOf(a).AllTouched() by { DoneTouched(a); }
    assert AfterOf(a).TailFits() by { TailIs(a); }
  }

  lemma {:induction false} TailAtHandSame(a: Append)
    requires a.bs > 0 && |a.pub.sub| == if |a.sub| <= a.Last() then a.Last() + 1 else |a.sub|
    ensures a.TailAtHand() <==> AfterOf(a).TailAtHand()
  {
    assert |AfterOf(a).Right()| == Within(|a.data|, a.bs) by { Positions(AfterOf(a)); }
  }

  /** For every inode whose blocks hold the content: closing publishes the file with the string added, well cut
      and with block files that fit, if and only if the tail and nothing else was at hand. */
  lemma {:induction false} AppendIff(a: Append)
    requires a.Done()
    ensures Published(a.dec, a.bs, a.pub, a.now, a.data + a.s) <==> a.TailAtHand()
  {
    assert a.TailAtHand() <==> AfterOf(a).TailAtHand() by {
      Publishes(a);
      TailAtHandSame(a);
    }
    assert AfterOf(a).Shape() by { DoneShape(a); }
    RightIff(AfterOf(a));
    assert Coherent(a.dec, a.now, a.pub.sub) by { CacheAfter(a); }
    assert |a.data + a.s| == |a.data| + |a.s|;
  }

  // ----- files as put and write sessions leave them -----

  /** When the list ends with the block that the end of the file falls into, only the last block counts: the file
      ends on a block boundary with nothing cached there, or its last block is cached and has no bytes past the end. */
  lemma {:induction false} TailAtHandIff(a: Append)
    requires a.Opened() && |a.sub| <= a.First() + 1
    ensures a.TailAtHand() <==>
              if Cached(a.cache, a.First()) then |Decode(a.dec, a.sub[a.First()])| == Within(|a.data|, a.bs)
              else Within(|a.data|, a.bs) == 0
  {
    FirstLe(a);
  }

  /** After a write session: the file ends on a block boundary, or its last block is cached. */
  lemma {:induction false} SessionAppendIff(a: Append)
    requires a.Done() && Decodeds(a.dec, a.sub) == CutAll(a.data, a.bs)
    ensures Published(a.dec, a.bs, a.pub, a.now, a.data + a.s) <==>
              Within(|a.data|, a.bs) == 0 || Cached(a.cache, a.First())
  {
    AppendIff(a);
    TailAtHandIff(a);
    DecodedAt(a.dec, a.sub, |a.sub|, a.First());
    assert |Cut(a.data, a.bs, a.First())| == Within(|a.data|, a.bs) by { Positions(AfterOf(a)); }
  }

  /** After put: the file ends on a block boundary; a cached last block does not help, since it holds leftover bytes. */
  lemma {:induction false} PutAppendIff(a: Append)
    requires a.Done() && PutGet.Reads(|a.data|, a.bs, |a.sub|) && Decodeds(a.dec, a.sub) == PutGet.Buffers(a.data, a.bs, |a.sub|)
    ensures Published(a.dec, a.bs, a.pub, a.now, a.data + a.s) <==> Within(|a.data|, a.bs) == 0
  {
    PutEnds(|a.data|, a.bs, |a.sub|);
    AppendIff(a);
    TailAtHandIff(a);
    var first: nat := a.First();
    IndexBounds(|a.data|, a.bs);
    if first < |a.sub| {
      DecodedAt(a.dec, a.sub, |a.sub|, first);
      PutGet.BuffersAt(a.data, a.bs, |a.sub|, first);
    }
  }

  lemma {:induction false} PutEnds(size: nat, bs: nat, n: nat)
    requires bs > 0 && PutGet.Reads(size, bs, n)
    ensures n == if Within(size, bs) == 0 then Index(size, bs) else Index(size, bs) + 1
  {
    IndexBounds(size, bs);
    var i := Index(size, bs);
    if n > i + 1 {
      StartLe(i + 1, n - 1, bs);
    } else if n < i {
      StartLe(n + 1, i, bs);
    }
  }

  // ----- the calls -----

  lemma {:induction false} PieceEnds(bs: nat, offset: nat, s: string, i: nat)
    requires bs > 0 && Index(offset, bs) <= i <= Index(offset + |s|, bs)
    ensures Start(i, bs) + |Piece(bs, offset, s, i)| <= offset + |s| && i <= offset + |s|
  {
    PieceLength(bs, offset, |s|, i);
    IndexBounds(offset + |s|, bs);
    StartLe(i, Index(offset + |s|, bs), bs);
  }

  /** Each file ends where an int can tell. */
  lemma {:induction false} FileEnds(a: Append, i: nat)
    requires a.Wrote() && i in a.marks
    ensures i in a.now && Start(i, a.bs) + |a.now[i]| <= |a.data| + |a.s| + a.bs && i <= |a.data| + |a.s|
  {
    assert a.WroteAt(i);
    PieceEnds(a.bs, |a.data|, a.s, i);
    HeldSize(a, i);
  }

  lemma {:induction false} HeldSize(a: Append, i: nat)
    requires a.Opened()
    ensures |FileAt(a.cache, i)| <= a.bs
  {
    if i in a.cache && a.cache[i] != "" {
      DecodedAt(a.dec, a.sub, |a.sub|, i);
    }
  }

  lemma {:induction false} AppendIsFlushable(a: Append)
    requires a.Wrote() && |a.data| + |a.s| + a.bs < INT_LIMIT
    ensures a.marks != {} && Flushable(a.now, a.marks, a.bs, a.texts)
  {
    LastMark(a);
    forall i | i in a.marks ensures i in a.now && Start(i, a.bs) + |a.now[i]| < INT_LIMIT && i < INT_LIMIT {
      FileEnds(a, i);
    }
  }

  /** At the end of the file nothing is read before the write. */
  lemma {:induction false} NoPrefetch(dec: Decoder, cache: Cache, sub: seq<string>, bs: nat, filesize: nat, s: string)
    requires bs > 0
    ensures Prefetched(dec, cache, sub, bs, filesize, filesize, |s|) == cache
  {
  }

  lemma {:induction false} AllWrote(cache: Cache, now: Cache, marks: set<nat>, bs: nat, data: string, s: string)
    requires bs > 0
    requires var first, second := Index(|data|, bs), Index(|data| + |s|, bs) + 1;
             now == Appended(cache, bs, |data|, s, first, second) && marks == Marked({}, first, second)
    ensures forall i: nat :: WroteFile(cache, now, marks, bs, data, s, i)
  {
    forall i: nat ensures WroteFile(cache, now, marks, bs, data, s, i) {
      WriteDataWrote(cache, bs, data, s, i);
    }
  }

  method AppendTo(f: File, s: string, ghost data: string)
    requires 0 < f.blockSize && HoldsContent(Decodeds(f.dec, f.sub), f.blockSize, data)
    requires f.filesize == |data| && f.written == {} && |data| + |s| + f.blockSize < INT_LIMIT
    modifies f`cache, f`written
    ensures var first, second := Index(|data|, f.blockSize), Index(|data| + |s|, f.blockSize) + 1;
            f.cache == Appended(old(f.cache), f.blockSize, |data|, s, first, second) && f.written == Marked({}, first, second)
    ensures forall i: nat :: WroteFile(old(f.cache), f.cache, f.written, f.blockSize, data, s, i)
  {
    FlatSize(Decodeds(f.dec, f.sub), f.blockSize, |data|);
    NoPrefetch(f.dec, f.cache, f.sub, f.blockSize, f.filesize, s);
    f.WriteData(f.filesize, s);
    AllWrote(old(f.cache), f.cache, f.written, f.blockSize, data, s);
  }

  lemma {:induction false} Closed(a: Append, pub: Publish) returns (b: Append)
    requires a.Wrote() && Flushed(a.sub, |a.data|, a.now, a.marks, a.bs, a.texts, pub)
    ensures b == a.(pub := pub) && b.Done()
    ensures Published(b.dec, b.bs, b.pub, b.now, b.data + b.s) <==> b.TailAtHand()
  {
    b := a.(pub := pub);
    forall i: nat ensures b.WroteAt(i) {
      assert a.WroteAt(i);
    }
    AppendIff(b);
  }

  /** Open a closed file, write once at its end, close; `a` says what was there, what was written and what is published. */
  method AppendAndClose(f: File, s: string, texts: map<nat, string>, ghost data: string) returns (pub: Option<Publish>, ghost a: Append)
    requires 0 < f.blockSize && HoldsContent(Decodeds(f.dec, f.sub), f.blockSize, data) && Coherent(f.dec, f.cache, f.sub)
    requires f.filesize == |data| && f.written == {} && |data| + |s| + f.blockSize < INT_LIMIT
    requires var first, second := Index(|data|, f.blockSize), Index(|data| + |s|, f.blockSize) + 1;
             EncodesFiles(f.dec, Appended(f.cache, f.blockSize, |data|, s, first, second), Marked({}, first, second), texts)
    modifies f`cache, f`written, f`sub, f`filesize
    ensures pub.Some? && a.Done()
    ensures a == Append(f.dec, f.blockSize, old(f.sub), data, old(f.cache), s, f.cache, a.marks, texts, pub.value)
    ensures Published(a.dec, a.bs, a.pub, a.now, a.data + a.s) <==> a.TailAtHand()
  {
    AppendTo(f, s, data);
    a := Append(f.dec, f.blockSize, f.sub, data, old(f.cache), s, f.cache, f.written, texts, Publish([], 0));
    assert forall i: nat :: a.WroteAt(i);
    AppendIsFlushable(a);
    pub := f.Close(texts);
    a := Closed(a, pub.value);
  }
}
