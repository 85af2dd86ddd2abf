/** What reads find after a write at the end of a closed file, when the tail was not at hand. */
module AppendReads {
  import opened Results
  import opened FlatFile
  import opened OpenFile
  import opened WriteSession
  import opened AppendedFile
  import opened AppendSession

  // ----- strings -----

  lemma {:induction false} Regroup(a: string, b: string, c: string)
    ensures (a + b) + c == a + (b + c)
  {
  }

  lemma {:induction false} SameStart(right: string, x: string, s: string)
    requires right + x == right + s
    ensures x == s
  {
    assert (right + x)[|right|..] == x && (right + s)[|right|..] == s;
  }

  /** A string put after more bytes than it should come after looks right when those bytes repeat it. */
  lemma {:induction false} RepeatIff(t: string, s: string, w: nat)
    requires w <= |t|
    ensures (t + s)[..w + |s|] == t[..w] + s <==> s <= t[w..] + s
  {
    var rest := t[w..] + s;
    assert t + s == t[..w] + rest;
    assert (t + s)[..w + |s|] == t[..w] + rest[..|s|];
    if t[..w] + rest[..|s|] == t[..w] + s {
      SameStart(t[..w], rest[..|s|], s);
    }
  }

  lemma {:induction false} RepeatAt(left: string, s: string, e: nat, k: nat)
    requires s <= left + s && k < e <= |s|
    ensures (left + s[..e])[k] == s[k]
  {
    assert (left + s)[k] == s[k];
  }

  /** It then looks right as far as it goes, whatever comes before it. */
  lemma {:induction false} RepeatAgrees(before: string, t: string, s: string, w: nat, e: nat, m: nat)
    requires w <= |t| && e <= |s| && s <= t[w..] + s && m <= |before| + w + e
    ensures (before + (t + s[..e]))[..m] == (before + (t[..w] + s[..e]))[..m]
  {
    var x, y := before + (t + s[..e]), before + (t[..w] + s[..e]);
    forall k | 0 <= k < m ensures x[k] == y[k] {
      if k >= |before| + w {
        RepeatAt(t[w..], s, e, k - |before| - w);
        assert x[k] == (t[w..] + s[..e])[k - |before| - w];
        assert y[k] == s[k - |before| - w];
      }
    }
  }

  // ----- blocks that are right but for one -----

  lemma {:induction false} GatherSame(blocks: Blocks, cuts: Blocks, bs: nat, lo: nat, hi: nat)
    requires |blocks| == |cuts| && hi <= |blocks| && forall i | lo <= i < hi :: blocks[i] == cuts[i]
    ensures Gather(blocks, bs, lo, hi) == Gather(cuts, bs, lo, hi)
    decreases hi
  {
    if lo < hi {
      GatherSame(blocks, cuts, bs, lo, hi - 1);
    }
  }

  lemma {:induction false} GatherFrom(blocks: Blocks, bs: nat, i: nat, hi: nat)
    requires i < hi <= |blocks|
    ensures Gather(blocks, bs, i, hi) == blocks[i] + Gather(blocks, bs, i + 1, hi)
  {
    GatherSplit(blocks, bs, i, i + 1, hi);
    GatherOne(blocks, bs, i);
  }

  /** The blocks of a file in which one block should have `piece` after `right` and has it after `tail`; from that
      block to its end the file should hold `right` and then `s`. */
  ghost predicate Left(blocks: Blocks, cuts: Blocks, bs: nat, first: nat, tail: string, right: string, piece: string, s: string) {
    && first < |blocks| == |cuts|
    && blocks[first] == tail + piece && cuts[first] == right + piece
    && (forall i | 0 <= i < |blocks| && i != first :: blocks[i] == cuts[i])
    && Gather(cuts, bs, first, |cuts|) == right + s
  }

  /** What follows the tail, up to block `hi`. */
  function Following(cuts: Blocks, bs: nat, first: nat, piece: string, hi: nat): string {
    piece + Gather(cuts, bs, first + 1, hi)
  }

  lemma {:induction false} GatherTail(blocks: Blocks, cuts: Blocks, bs: nat, first: nat, tail: string, right: string, piece: string, s: string, hi: nat)
    requires Left(blocks, cuts, bs, first, tail, right, piece, s) && first < hi <= |blocks|
    ensures Gather(blocks, bs, first, hi) == tail + Following(cuts, bs, first, piece, hi)
    ensures Gather(cuts, bs, first, hi) == right + Following(cuts, bs, first, piece, hi)
  {
    var g := Gather(cuts, bs, first + 1, hi);
    assert Gather(blocks, bs, first, hi) == (tail + piece) + g by {
      GatherFrom(blocks, bs, first, hi);
      GatherSame(blocks, cuts, bs, first + 1, hi);
    }
    assert Gather(cuts, bs, first, hi) == (right + piece) + g by { GatherFrom(cuts, bs, first, hi); }
    Regroup(tail, piece, g);
    Regroup(right, piece, g);
  }

  /** From that block to the end: the tail that was found, and the string. */
  lemma {:induction false} LeftFrom(blocks: Blocks, cuts: Blocks, bs: nat, first: nat, tail: string, right: string, piece: string, s: string)
    requires Left(blocks, cuts, bs, first, tail, right, piece, s)
    ensures Gather(blocks, bs, first, |cuts|) == tail + s
  {
    GatherTail(blocks, cuts, bs, first, tail, right, piece, s, |cuts|);
    SameStart(right, Following(cuts, bs, first, piece, |cuts|), s);
  }

  lemma {:induction false} FollowingIsPrefix(blocks: Blocks, cuts: Blocks, bs: nat, first: nat, tail: string, right: string, piece: string, s: string, hi: nat)
    requires Left(blocks, cuts, bs, first, tail, right, piece, s) && first < hi <= |blocks|
    ensures Following(cuts, bs, first, piece, hi) <= s
  {
    var x, rest := Following(cuts, bs, first, piece, hi), Gather(cuts, bs, hi, |cuts|);
    GatherTail(blocks, cuts, bs, first, tail, right, piece, s, hi);
    GatherSplit(cuts, bs, first, hi, |cuts|);
    Regroup(right, x, rest);
    SameStart(right, x + rest, s);
  }

  // ----- reads of such blocks -----

  /** The read from that block to the end. */
  lemma {:induction false} TailRead(blocks: Blocks, cuts: Blocks, bs: nat, first: nat, tail: string, right: string, piece: string, s: string, size: nat)
    requires bs > 0 && Left(blocks, cuts, bs, first, tail, right, piece, s)
    requires size == Start(first, bs) + |right| + |s| && |cuts| == Index(size, bs) + 1
    ensures ReadOf(blocks, bs, size, Start(first, bs), |right| + |s|) ==
              if |right| <= |tail| then Some(Slice(tail + s, 0, |right| + |s|)) else None
  {
    var n := |right| + |s|;
    assert ReadOf(blocks, bs, size, Start(first, bs), n) == ReadAt(blocks, bs, first, |cuts|, Start(first, bs), n) by {
      ReadOfIs(blocks, bs, size, Start(first, bs), n);
      IndexOfStart(first, bs);
    }
    LeftFrom(blocks, cuts, bs, first, tail, right, piece, s);
    ReadFrom(blocks, bs, first, |cuts|, tail + s, n);
  }

  lemma {:induction false} GatherAround(blocks: Blocks, cuts: Blocks, bs: nat, first: nat, tail: string, right: string, piece: string, s: string, lo: nat, hi: nat)
    requires Left(blocks, cuts, bs, first, tail, right, piece, s) && lo <= first < hi <= |blocks|
    ensures var x, before := Following(cuts, bs, first, piece, hi), Gather(cuts, bs, lo, first);
            Gather(blocks, bs, lo, hi) == before + (tail + x) && Gather(cuts, bs, lo, hi) == before + (right + x)
  {
    GatherSplit(blocks, bs, lo, first, hi);
    GatherSplit(cuts, bs, lo, first, hi);
    GatherSame(blocks, cuts, bs, lo, first);
    GatherTail(blocks, cuts, bs, first, tail, right, piece, s, hi);
  }

  lemma {:induction false} PrefixAgrees(before: string, tail: string, right: string, s: string, x: string, m: nat)
    requires right <= tail && s <= tail[|right|..] + s && x <= s && m <= |before + (right + x)|
    ensures m <= |before + (tail + x)| && (before + (tail + x))[..m] == (before + (right + x))[..m]
  {
    assert x == s[..|x|] && right == tail[..|right|];
    RepeatAgrees(before, tail, s, |right|, |x|, m);
  }

  /** As far as a read goes, the blocks look as they should. */
  lemma {:induction false} GatherLooksRight(blocks: Blocks, cuts: Blocks, bs: nat, first: nat, tail: string, right: string,
                                            piece: string, s: string, lo: nat, hi: nat, m: nat)
    requires Left(blocks, cuts, bs, first, tail, right, piece, s) && lo < hi <= |blocks|
    requires right <= tail && s <= tail[|right|..] + s && m <= |Gather(cuts, bs, lo, hi)|
    ensures m <= |Gather(blocks, bs, lo, hi)| && Gather(blocks, bs, lo, hi)[..m] == Gather(cuts, bs, lo, hi)[..m]
  {
    if lo <= first < hi {
      var x, before := Following(cuts, bs, first, piece, hi), Gather(cuts, bs, lo, first);
      GatherAround(blocks, cuts, bs, first, tail, right, piece, s, lo, hi);
      FollowingIsPrefix(blocks, cuts, bs, first, tail, right, piece, s, hi);
      PrefixAgrees(before, tail, right, s, x, m);
    } else {
      GatherSame(blocks, cuts, bs, lo, hi);
    }
  }

  lemma {:induction false} ReadLooksRight(blocks: Blocks, cuts: Blocks, bs: nat, first: nat, tail: string, right: string,
                                          piece: string, s: string, size: nat, offset: nat, n: nat)
    requires bs > 0 && Left(blocks, cuts, bs, first, tail, right, piece, s) && right <= tail && s <= tail[|right|..] + s
    requires |cuts| == Index(size, bs) + 1 && offset <= size
    requires ReadOf(cuts, bs, size, offset, n).Some?
    ensures ReadOf(blocks, bs, size, offset, n) == ReadOf(cuts, bs, size, offset, n)
  {
    var k := Clamp(size, offset, n);
    var lo, hi := Index(offset, bs), Index(offset + k, bs) + 1;
    assert lo < hi <= |blocks| by {
      ReadBounds(bs, offset, k);
      IndexLe(offset + k, size, bs);
    }
    GatherLooksRight(blocks, cuts, bs, first, tail, right, piece, s, lo, hi, offset - Start(lo, bs) + k);
    ReadAtSame(blocks, cuts, bs, lo, hi, offset, k);
  }

  // ----- the blocks of the longer file -----

  lemma {:induction false} CutTail(data: string, bs: nat)
    requires bs > 0
    ensures var first := Index(|data|, bs);
            Start(first, bs) <= |data| && Cut(data, bs, first) == data[Start(first, bs)..] && |Cut(data, bs, first)| == Within(|data|, bs)
  {
    IndexBounds(|data|, bs);
  }

  lemma {:induction false} SplitAtTail(data: string, s: string, lo: nat, g: string)
    requires lo <= |data| && (data + s)[..lo] + g == data + s
    ensures g == data[lo..] + s
  {
    assert g == (data + s)[lo..];
  }

  lemma {:induction false} CutsFromAt(data: string, s: string, bs: nat, i: nat)
    requires bs > 0 && Start(i, bs) <= |data| && i < |CutAll(data + s, bs)|
    ensures Gather(CutAll(data + s, bs), bs, i, |CutAll(data + s, bs)|) == data[Start(i, bs)..] + s
  {
    var g := Gather(CutAll(data + s, bs), bs, i, |CutAll(data + s, bs)|);
    CutsSplit(data + s, bs, i);
    SplitAtTail(data, s, Start(i, bs), g);
  }

  /** Of the longer file's blocks, those from the first touched one on hold the tail and the string. */
  lemma {:induction false} CutsFrom(data: string, s: string, bs: nat)
    requires bs > 0
    ensures var cuts, first := CutAll(data + s, bs), Index(|data|, bs);
            first < |cuts| == Index(|data| + |s|, bs) + 1 && Gather(cuts, bs, first, |cuts|) == Cut(data, bs, first) + s
  {
    var first := Index(|data|, bs);
    assert Start(first, bs) <= |data| by { CutTail(data, bs); }
    assert |data + s| == |data| + |s|;
    IndexLe(|data|, |data| + |s|, bs);
    var right := data[Start(first, bs)..];
    assert Cut(data, bs, first) == right by { CutTail(data, bs); }
    CutsFromAt(data, s, bs, first);
  }

  lemma {:induction false} CutsSplit(all: string, bs: nat, i: nat)
    requires bs > 0 && Start(i, bs) <= |all| && i < |CutAll(all, bs)|
    ensures all[..Start(i, bs)] + Gather(CutAll(all, bs), bs, i, |CutAll(all, bs)|) == all
  {
    var cuts := CutAll(all, bs);
    assert Gather(cuts, bs, 0, i) == all[..Start(i, bs)] by { GatherCuts(cuts, all, bs, i); }
    assert Flat(cuts, bs) == all by { CutAllIsWellCut(all, bs); }
    GatherSplit(cuts, bs, 0, i, |cuts|);
  }

  lemma {:induction false} CutsRead(all: string, bs: nat)
    requires bs > 0
    ensures ReadsAs(CutAll(all, bs), bs, |all|, all)
  {
    CutAllIsWellCut(all, bs);
    assert all[..|all|] == all;
    forall offset: nat, size: nat ensures ReadOf(CutAll(all, bs), bs, |all|, offset, size) == Some(Slice(all, offset, size)) {
      ReadSlice(CutAll(all, bs), bs, |all|, offset, size);
    }
  }

  // ----- reads after a write at the end -----

  /** Past the first touched block the write found nothing, and no block lies beyond it. */
  ghost predicate Trimmed(v: After)
    requires v.bs > 0
  {
    (forall i | v.First() < i <= v.Last() :: FileAt(v.held, i) == "") && |v.blocks| == v.Last() + 1
  }

  /** The write came after bytes past the end of the file, but those bytes happen to repeat what it wrote. */
  predicate Repeats(v: After)
    requires v.bs > 0
  {
    v.First() < v.Last() && |v.Right()| < |v.Tail()| && v.s <= v.Tail()[|v.Right()|..] + v.s
  }

  /** The write found the tail and nothing else, or more that repeats what it wrote. */
  predicate Fits(v: After)
    requires v.bs > 0
  {
    |v.Tail()| == |v.Right()| || Repeats(v)
  }

  lemma {:induction false} OtherIsRight(v: After, i: nat)
    requires v.Shape() && Trimmed(v) && i <= v.Last() && i != v.First()
    ensures i < |v.blocks| && v.blocks[i] == Cut(v.data + v.s, v.bs, i)
  {
    if i < v.First() {
      assert v.BelowAt(i);
      CutCases(v.data, v.s, v.bs, i);
    } else {
      assert v.TouchedAt(i);
      TouchedIsRight(v, i);
    }
  }

  lemma {:induction false} FirstIs(v: After)
    requires v.Shape()
    ensures v.First() <= v.Last() < |v.blocks| && v.blocks[v.First()] == v.Tail() + Piece(v.bs, |v.data|, v.s, v.First())
  {
    Positions(v);
    var first: nat := v.First();
    assert v.TouchedAt(first);
  }

  /** The blocks of the longer file: what is left of them is right but for the first touched one. */
  lemma {:induction false} CutsLeft(v: After, cuts: Blocks, piece: string)
    requires v.Shape() && Trimmed(v) && cuts == CutAll(v.data + v.s, v.bs) && piece == Piece(v.bs, |v.data|, v.s, v.First())
    ensures Left(v.blocks, cuts, v.bs, v.First(), v.Tail(), v.Right(), piece, v.s)
  {
    FirstIs(v);
    assert |cuts| == |v.blocks| && Gather(cuts, v.bs, v.First(), |cuts|) == v.Right() + v.s by { CutsFrom(v.data, v.s, v.bs); }
    assert cuts[v.First()] == v.Right() + piece by { CutCases(v.data, v.s, v.bs, v.First()); }
    forall i | 0 <= i < |v.blocks| && i != v.First() ensures v.blocks[i] == cuts[i] {
      OtherIsRight(v, i);
    }
  }

  lemma {:induction false} IsLeft(v: After) returns (cuts: Blocks, piece: string)
    requires v.Shape() && Trimmed(v)
    ensures Left(v.blocks, cuts, v.bs, v.First(), v.Tail(), v.Right(), piece, v.s) && |cuts| == v.Last() + 1
  {
    cuts, piece := CutAll(v.data + v.s, v.bs), Piece(v.bs, |v.data|, v.s, v.First());
    CutsLeft(v, cuts, piece);
  }

  // ----- the size -----

  /** When the size is that of the longer file. */
  lemma {:induction false} SizeIff(v: After)
    requires v.Shape() && Trimmed(v)
    ensures v.size == |v.data| + |v.s| <==>
              v.First() < v.Last() || |v.Tail()| == |v.Right()| || (v.s == "" && |v.Tail()| < |v.Right()|)
  {
    Positions(v);
    BlockSizes(v, v.Last());
    if v.First() < v.Last() {
      StartLe(v.First() + 1, v.Last(), v.bs);
    }
  }

  // ----- a read that differs -----

  /** The tail that was found is not what the block should begin with, nor does it make up for it. */
  predicate Misfit(tail: string, right: string, s: string) {
    && (tail == "" || right <= tail)
    && |tail| != |right| && !(|right| < |tail| && s <= tail[|right|..] + s)
  }

  lemma {:induction false} WrongBytes(tail: string, right: string, s: string)
    requires Misfit(tail, right, s) && |right| <= |tail|
    ensures Slice(tail + s, 0, |right| + |s|) != right + s
  {
    var w := |right|;
    assert tail[..w] == right;
    SliceIs(tail + s, 0, w + |s|);
    RepeatIff(tail, s, w);
  }

  lemma {:induction false} WrongRead(blocks: Blocks, cuts: Blocks, bs: nat, first: nat, tail: string, right: string, piece: string, s: string, size: nat)
    requires bs > 0 && Left(blocks, cuts, bs, first, tail, right, piece, s) && Misfit(tail, right, s)
    requires size == Start(first, bs) + |right| + |s| && |cuts| == Index(size, bs) + 1
    ensures ReadOf(blocks, bs, size, Start(first, bs), |right| + |s|) != Some(right + s)
  {
    TailRead(blocks, cuts, bs, first, tail, right, piece, s, size);
    if |right| <= |tail| {
      WrongBytes(tail, right, s);
    }
  }

  lemma {:induction false} ContentTail(data: string, s: string, bs: nat)
    requires bs > 0
    ensures var right := Cut(data, bs, Index(|data|, bs));
            Slice(data + s, Start(Index(|data|, bs), bs), |right| + |s|) == right + s
  {
    var start := Start(Index(|data|, bs), bs);
    CutTail(data, bs);
    SliceIs(data + s, start, |Cut(data, bs, Index(|data|, bs))| + |s|);
    assert (data + s)[start..] == data[start..] + s;
    assert start + (|data[start..]| + |s|) == |data + s|;
    assert (data + s)[start..|data + s|] == (data + s)[start..];
  }

  lemma {:induction false} UnfitTail(v: After)
    requires v.Shape() && Trimmed(v) && !Fits(v) && v.size == |v.data| + |v.s|
    ensures Misfit(v.Tail(), v.Right(), v.s)
  {
    SizeIff(v);
    Positions(v);
  }

  lemma {:induction false} UnfitRead(v: After)
    requires v.Shape() && Trimmed(v) && !Fits(v) && v.size == |v.data| + |v.s|
    ensures ReadOf(v.blocks, v.bs, v.size, Start(v.First(), v.bs), |v.Right()| + |v.s|) != Some(v.Right() + v.s)
  {
    assert v.size == Start(v.First(), v.bs) + |v.Right()| + |v.s| by { Positions(v); }
    assert Misfit(v.Tail(), v.Right(), v.s) by { UnfitTail(v); }
    var cuts, piece := IsLeft(v);
    WrongRead(v.blocks, cuts, v.bs, v.First(), v.Tail(), v.Right(), piece, v.s, v.size);
  }

  /** Some read differs: one that tells the size, or the one from the first touched block to the end, which finds
      wrong bytes or runs out of them. */
  lemma {:induction false} UnfitShows(v: After) returns (offset: nat, n: nat)
    requires v.Shape() && Trimmed(v) && !Fits(v)
    ensures ReadOf(v.blocks, v.bs, v.size, offset, n) != Some(Slice(v.data + v.s, offset, n))
  {
    if v.size != |v.data| + |v.s| {
      offset, n := 0, v.size + |v.data + v.s|;
      SizeShows(v.blocks, v.bs, v.size, v.data + v.s);
    } else {
      offset, n := Start(v.First(), v.bs), |v.Right()| + |v.s|;
      assert Slice(v.data + v.s, offset, n) == v.Right() + v.s by { ContentTail(v.data, v.s, v.bs); }
      UnfitRead(v);
    }
  }

  // ----- reads that are right -----

  lemma {:induction false} FitTail(v: After)
    requires v.Shape() && Fits(v)
    ensures v.Right() <= v.Tail() && v.s <= v.Tail()[|v.Right()|..] + v.s
  {
    if |v.Tail()| == |v.Right()| {
      TailIsRight(v);
      assert v.Tail()[|v.Right()|..] == "";
      assert "" + v.s == v.s;
    }
  }

  lemma {:induction false} RightRead(blocks: Blocks, cuts: Blocks, bs: nat, first: nat, tail: string, right: string, piece: string, s: string, size: nat, all: string)
    requires bs > 0 && Left(blocks, cuts, bs, first, tail, right, piece, s) && right <= tail && s <= tail[|right|..] + s
    requires |cuts| == Index(size, bs) + 1 && size == |all| && ReadsAs(cuts, bs, size, all)
    ensures ReadsAs(blocks, bs, size, all)
  {
    forall offset: nat, n: nat ensures ReadOf(blocks, bs, size, offset, n) == Some(Slice(all, offset, n)) {
      assert ReadOf(cuts, bs, size, offset, n) == Some(Slice(all, offset, n));
      if offset <= size {
        ReadLooksRight(blocks, cuts, bs, first, tail, right, piece, s, size, offset, n);
      }
    }
  }

  lemma {:induction false} FitReads(v: After)
    requires v.Shape() && Trimmed(v) && Fits(v)
    ensures ReadsAs(v.blocks, v.bs, v.size, v.data + v.s)
  {
    var cuts, piece := CutAll(v.data + v.s, v.bs), Piece(v.bs, |v.data|, v.s, v.First());
    assert v.size == |v.data + v.s| by { SizeIff(v); }
    assert Left(v.blocks, cuts, v.bs, v.First(), v.Tail(), v.Right(), piece, v.s) by { CutsLeft(v, cuts, piece); }
    assert ReadsAs(cuts, v.bs, v.size, v.data + v.s) by { CutsRead(v.data + v.s, v.bs); }
    FitTail(v);
    RightRead(v.blocks, cuts, v.bs, v.First(), v.Tail(), v.Right(), piece, v.s, v.size, v.data + v.s);
  }

  lemma {:induction false} ReadsIff(v: After)
    requires v.Shape() && Trimmed(v)
    ensures ReadsAs(v.blocks, v.bs, v.size, v.data + v.s) <==> Fits(v)
  {
    if Fits(v) {
      FitReads(v);
    } else {
      var offset, n := UnfitShows(v);
    }
  }

  // ----- the append -----

  /** The list ends with the block that the end of the file falls into: so it does after put, a write session,
      and an append that kept the file. */
  ghost predicate Trim(a: Append)
    requires a.bs > 0
  {
    |a.sub| <= a.First() + 1
  }

  lemma {:induction false} TrimIsTrimmed(a: Append)
    requires a.Done() && Trim(a)
    ensures AfterOf(a).Shape() && Trimmed(AfterOf(a))
  {
    assert AfterOf(a).Shape() by { DoneShape(a); }
    FirstLe(a);
    assert |a.pub.sub| == a.Last() + 1 by { Publishes(a); }
    assert forall i | a.First() < i <= a.Last() :: FileAt(a.cache, i) == "";
  }

  /** After put, a write session or a kept append: every read after one more write at the end gives the longer file if
      and only if the write found the tail and nothing else, or found more that happens to repeat what it wrote. */
  lemma {:induction false} AppendReadsIff(a: Append)
    requires a.Done() && Trim(a)
    ensures ReadsAs(Decodeds(a.dec, a.pub.sub), a.bs, a.pub.filesize, a.data + a.s) <==> Fits(AfterOf(a))
  {
    TrimIsTrimmed(a);
    ReadsIff(AfterOf(a));
  }

  /** Otherwise here is a read that differs. */
  lemma {:induction false} AppendShows(a: Append) returns (offset: nat, n: nat)
    requires a.Done() && Trim(a) && !Fits(AfterOf(a))
    ensures ReadOf(Decodeds(a.dec, a.pub.sub), a.bs, a.pub.filesize, offset, n) != Some(Slice(a.data + a.s, offset, n))
  {
    TrimIsTrimmed(a);
    offset, n := UnfitShows(AfterOf(a));
  }

  // ----- a concrete case -----

  lemma {:induction false} SizeAtLeast(v: After)
    requires v.Shape() && Trimmed(v) && |v.Right()| <= |v.Tail()|
    ensures v.size >= |v.data| + |v.s|
  {
    Positions(v);
    BlockSizes(v, v.Last());
  }

  /** Where the tail was longer than it should be, a read from the first touched block finds the tail. */
  lemma {:induction false} TailShows(v: After, n: nat)
    requires v.Shape() && Trimmed(v) && |v.Right()| <= |v.Tail()| && n <= |v.Tail()| && n <= |v.Right()| + |v.s|
    ensures ReadOf(v.blocks, v.bs, v.size, Start(v.First(), v.bs), n) == Some(Slice(v.Tail(), 0, n))
  {
    FirstIs(v);
    assert Start(v.First(), v.bs) + n <= v.size by { SizeAtLeast(v); Positions(v); }
    BlockRead(v.blocks, v.bs, v.size, v.First(), n);
    SliceOfFirst(v.Tail(), Piece(v.bs, |v.data|, v.s, v.First()), 0, n);
  }

  /** The block of a one-byte file, as put leaves it. */
  function PutBlock(bs: nat): string
    requires bs > 0
  {
    "a" + Zeros(bs - 1)
  }

  /** The fragments of that block, and those of the two blocks that the append may encode. */
  function Stored(bs: nat): Decoder
    requires bs > 0
  {
    map["t" := PutBlock(bs), "u" := PutBlock(bs) + Piece(bs, |"a"|, "b", 0), "v" := Piece(bs, |"a"|, "b", 1)]
  }

  lemma {:induction false} SmallIndexes(bs: nat, data: string, s: string)
    requires 1 < bs && |data| == 1 && |s| == 1
    ensures Index(|data|, bs) == 0 && Index(|data| + |s|, bs) <= 1 && Start(0, bs) == 0 && Within(|data|, bs) == 1
  {
    IndexBounds(|data| + |s|, bs);
  }

  lemma {:induction false} ExampleFiles(bs: nat, cache: Cache, texts: map<nat, string>, last: nat)
    requires 1 < bs && cache == map[0 := PutBlock(bs)] && texts == map[0 := "u", 1 := "v"] && last <= 1
    ensures EncodesFiles(Stored(bs), Appended(cache, bs, |"a"|, "b", 0, last + 1), Marked({}, 0, last + 1), texts)
  {
    var now, marks := Appended(cache, bs, |"a"|, "b", 0, last + 1), Marked({}, 0, last + 1);
    forall i | i in marks ensures i in texts && i in now && Decode(Stored(bs), texts[i]) == now[i] {
      MarkedContents({}, 0, last + 1, i);
      AppendedContents(cache, bs, |"a"|, "b", 0, last + 1, i);
    }
  }

  lemma {:induction false} ExampleOpened(bs: nat, sub: seq<string>, data: string)
    requires 1 < bs && sub == ["t"] && data == "a"
    ensures HoldsContent(Decodeds(Stored(bs), sub), bs, data)
  {
    var blocks := Decodeds(Stored(bs), sub);
    DecodedAt(Stored(bs), sub, 1, 0);
    assert blocks == [PutBlock(bs)];
    GatherOne(blocks, bs, 0);
    assert PutBlock(bs)[..1] == "a";
  }

  lemma {:induction false} ExampleSlice(bs: nat)
    requires 1 < bs
    ensures Slice(PutBlock(bs), 0, 2) == ['a', '\0']
  {
    var t := PutBlock(bs);
    ZerosPlus(1, bs - 2);
    assert Zeros(1) == Zeros(0) + ['\0'] == ['\0'];
    SliceIs(t, 0, 2);
    assert t[0..2] == ['a', '\0'];
  }

  /** What is read after the append. */
  lemma {:induction false} ExampleShows(a: Append)
    requires a.Done() && 1 < a.bs && |a.sub| == 1 && |a.data| == 1 && |a.s| == 1 && a.cache == map[0 := PutBlock(a.bs)]
    ensures ReadOf(Decodeds(a.dec, a.pub.sub), a.bs, a.pub.filesize, 0, 2) == Some(['a', '\0']) && a.pub.filesize <= 2 + a.bs
  {
    SmallIndexes(a.bs, a.data, a.s);
    TrimIsTrimmed(a);
    ExampleTail(AfterOf(a));
    assert |FileAt(a.cache, a.Last())| <= a.bs by { HeldSize(a, a.Last()); }
    ExampleSize(AfterOf(a));
  }

  lemma {:induction false} ExampleTail(v: After)
    requires v.Shape() && Trimmed(v) && 1 < v.bs && |v.data| == 1 && |v.s| == 1 && v.held == map[0 := PutBlock(v.bs)]
    ensures ReadOf(v.blocks, v.bs, v.size, 0, 2) == Some(['a', '\0'])
  {
    SmallIndexes(v.bs, v.data, v.s);
    assert v.Tail() == PutBlock(v.bs);
    assert |v.Right()| == 1 by { Positions(v); }
    TailShows(v, 2);
    ExampleSlice(v.bs);
  }

  lemma {:induction false} ExampleSize(v: After)
    requires v.Shape() && |FileAt(v.held, v.Last())| <= v.bs
    ensures v.size <= |v.data| + |v.s| + v.bs
  {
    Positions(v);
    BlockSizes(v, v.Last());
  }

  method AppendB(f: File) returns (pub: Option<Publish>)
    requires 1 < f.blockSize && 2 + f.blockSize + f.blockSize < INT_LIMIT
    requires f.dec == Stored(f.blockSize) && f.sub == ["t"] && f.filesize == 1 && f.cache == map[0 := PutBlock(f.blockSize)] && f.written == {}
    modifies f`cache, f`written, f`sub, f`filesize
    ensures pub.Some? && pub.value.filesize <= 2 + f.blockSize
    ensures ReadOf(Decodeds(f.dec, pub.value.sub), f.blockSize, pub.value.filesize, 0, 2) == Some(['a', '\0'])
  {
    var texts, data, s := map[0 := "u", 1 := "v"], "a", "b";
    ExampleOpened(f.blockSize, f.sub, data);
    SmallIndexes(f.blockSize, data, s);
    ExampleFiles(f.blockSize, f.cache, texts, Index(|data| + |s|, f.blockSize));
    ghost var a: Append;
    pub, a := AppendAndClose(f, s, texts, data);
    ExampleShows(a);
  }

  /** For every block size over one: the file "a" is put, its block is read and so cached, and "b" is written at its
      end. Reading two bytes then gives the "a" and a zero byte that put left in the block. */
  method AppendToPutFile(bs: int32) returns (r: Option<string>)
    requires 1 < bs && 2 + bs + bs < INT_LIMIT
    ensures r == Some(['a', '\0'])
  {
    var f := new File(bs, Stored(bs), ["t"], 1, map[0 := PutBlock(bs)]);
    var pub := AppendB(f);
    var reader := new File(bs, Stored(bs), pub.value.sub, pub.value.filesize, map[]);
    CoherentFinds(Stored(bs), reader.cache, pub.value.sub, |pub.value.sub|);
    r := reader.ReadData(0, 2);
  }
}
