/** A file as the client sees it: blocks of one fixed size behind one flat string. */
module FlatFile {
  import opened Arithmetic
  import opened Results

  /** The blocks an inode's fragment lists decode to. */
  type Blocks = seq<string>

  // ----- block positions: products and quotients by the block size, kept out of the larger proofs -----

  /** Where block `i` starts. */
  function Start(i: nat, bs: nat): nat { if i == 0 then 0 else Start(i - 1, bs) + bs }

  /** The block a position falls into. */
  function Index(offset: nat, bs: nat): nat
    requires bs > 0
  {
    if offset < bs then 0 else 1 + Index(offset - bs, bs)
  }

  lemma {:induction false} StartIsProduct(i: nat, bs: nat)
    ensures Start(i, bs) == i * bs
  {
    if i > 0 {
      StartIsProduct(i - 1, bs);
      MulSucc(i - 1, bs);
    }
  }

  lemma {:induction false} StartLe(i: nat, j: nat, bs: nat)
    requires i <= j
    ensures Start(i, bs) <= Start(j, bs)
  {
    if i < j {
      StartLe(i, j - 1, bs);
    }
  }

  lemma {:induction false} IndexBounds(offset: nat, bs: nat)
    requires bs > 0
    ensures Start(Index(offset, bs), bs) <= offset < Start(Index(offset, bs), bs) + bs
    ensures Index(offset, bs) <= offset
  {
    if offset >= bs {
      IndexBounds(offset - bs, bs);
    }
  }

  /** Index and offset within the block are quotient and remainder. */
  lemma {:induction false} IndexIsQuotient(offset: nat, bs: nat)
    requires bs > 0
    ensures Index(offset, bs) == offset / bs
    ensures offset - Start(Index(offset, bs), bs) == offset % bs
  {
    var i := Index(offset, bs);
    IndexBounds(offset, bs);
    StartIsProduct(i, bs);
    DivOf(i, bs, offset - i * bs);
  }

  lemma {:induction false} IndexLe(a: nat, b: nat, bs: nat)
    requires bs > 0 && a <= b
    ensures Index(a, bs) <= Index(b, bs)
  {
    IndexBounds(a, bs);
    IndexBounds(b, bs);
    if Index(a, bs) > Index(b, bs) {
      StartLe(Index(b, bs) + 1, Index(a, bs), bs);
    }
  }

  // ----- blocks -----

  function Zeros(n: nat): (z: string)
    ensures |z| == n
  {
    if n == 0 then "" else Zeros(n - 1) + ['\0']
  }

  lemma {:induction false} ZerosPlus(m: nat, n: nat)
    ensures Zeros(m + n) == Zeros(m) + Zeros(n)
  {
    if n > 0 {
      ZerosPlus(m, n - 1);
    }
  }

  function BlockAt(blocks: Blocks, bs: nat, i: nat): string {
    if i < |blocks| then blocks[i] else Zeros(bs)
  }

  /** Blocks `lo` to `hi - 1` one after another; past the last one come zeros. */
  function Gather(blocks: Blocks, bs: nat, lo: nat, hi: nat): string
    decreases hi
  {
    if lo >= hi then "" else Gather(blocks, bs, lo, hi - 1) + BlockAt(blocks, bs, hi - 1)
  }

  function Flat(blocks: Blocks, bs: nat): string { Gather(blocks, bs, 0, |blocks|) }

  /** Every block but the last is full, and together they reach the file's size. */
  ghost predicate WellCut(blocks: Blocks, bs: nat, filesize: nat) {
    && bs > 0
    && (forall i | 0 <= i < |blocks| - 1 :: |blocks[i]| == bs)
    && (blocks != [] ==> |blocks[|blocks| - 1]| <= bs)
    && filesize <= |Flat(blocks, bs)|
  }

  function Content(blocks: Blocks, bs: nat, filesize: nat): string
    requires filesize <= |Flat(blocks, bs)|
  {
    Flat(blocks, bs)[..filesize]
  }

  /** What a read of `size` bytes at `offset` should give: the bytes from there on, until the end. */
  function Slice(content: string, offset: nat, size: nat): string
    decreases size
  {
    if size == 0 || offset >= |content| then "" else [content[offset]] + Slice(content, offset + 1, size - 1)
  }

  lemma {:induction false} SliceIs(content: string, offset: nat, size: nat)
    ensures offset > |content| ==> Slice(content, offset, size) == ""
    ensures offset <= |content| < offset + size ==> Slice(content, offset, size) == content[offset..]
    ensures offset + size <= |content| ==> Slice(content, offset, size) == content[offset..offset + size]
    decreases size
  {
    if size > 0 && offset < |content| {
      SliceIs(content, offset + 1, size - 1);
    }
  }

  // ----- gathering -----

  lemma {:induction false} GatherSplit(blocks: Blocks, bs: nat, lo: nat, mid: nat, hi: nat)
    requires lo <= mid <= hi
    ensures Gather(blocks, bs, lo, hi) == Gather(blocks, bs, lo, mid) + Gather(blocks, bs, mid, hi)
    decreases hi
  {
    if mid < hi {
      GatherSplit(blocks, bs, lo, mid, hi - 1);
    }
  }

  lemma {:induction false} GatherZeros(blocks: Blocks, bs: nat, lo: nat, hi: nat)
    requires |blocks| <= lo <= hi
    ensures Gather(blocks, bs, lo, hi) == Zeros(Start(hi - lo, bs))
    decreases hi
  {
    if lo < hi {
      GatherZeros(blocks, bs, lo, hi - 1);
      ZerosPlus(Start(hi - 1 - lo, bs), bs);
    }
  }

  lemma {:induction false} GatherFull(blocks: Blocks, bs: nat, m: nat)
    requires forall i | 0 <= i < m :: i < |blocks| && |blocks[i]| == bs
    ensures |Gather(blocks, bs, 0, m)| == Start(m, bs)
  {
    if m > 0 {
      GatherFull(blocks, bs, m - 1);
    }
  }

  /** A well cut file holds at most as many bytes as its blocks have room for. */
  lemma {:induction false} FlatSize(blocks: Blocks, bs: nat, filesize: nat)
    requires WellCut(blocks, bs, filesize)
    ensures |Flat(blocks, bs)| <= Start(|blocks|, bs)
    ensures blocks != [] ==> |Flat(blocks, bs)| == Start(|blocks| - 1, bs) + |blocks[|blocks| - 1]|
  {
    if blocks != [] {
      GatherFull(blocks, bs, |blocks| - 1);
    }
  }

  /** All blocks before a position inside the file are full. */
  lemma {:induction false} FullBefore(blocks: Blocks, bs: nat, filesize: nat, m: nat)
    requires WellCut(blocks, bs, filesize) && Start(m, bs) <= filesize
    ensures m <= |blocks| && |Gather(blocks, bs, 0, m)| == Start(m, bs)
  {
    FlatSize(blocks, bs, filesize);
    if m > |blocks| {
      StartLe(|blocks| + 1, m, bs);
    }
    if m < |blocks| {
      GatherFull(blocks, bs, m);
    }
  }

  /** The blocks up to `hi` begin with the file's bytes up to any position below `hi` blocks. */
  lemma {:induction false} GatherBegins(blocks: Blocks, bs: nat, filesize: nat, hi: nat, end: nat)
    requires WellCut(blocks, bs, filesize) && end <= filesize && end < Start(hi, bs)
    ensures end <= |Gather(blocks, bs, 0, hi)|
    ensures Gather(blocks, bs, 0, hi)[..end] == Content(blocks, bs, filesize)[..end]
  {
    if hi <= |blocks| {
      GatherSplit(blocks, bs, 0, hi, |blocks|);
      if hi < |blocks| {
        GatherFull(blocks, bs, hi);
      }
    } else {
      GatherSplit(blocks, bs, 0, |blocks|, hi);
    }
  }

  /** As many bytes of a read as the file has. */
  function Clamp(filesize: nat, offset: nat, size: nat): nat
    requires offset <= filesize
  {
    if filesize < offset + size then filesize - offset else size
  }

  lemma {:induction false} SliceClamped(content: string, offset: nat, size: nat)
    requires offset <= |content|
    ensures Slice(content, offset, size) == Slice(content, offset, Clamp(|content|, offset, size))
    decreases size
  {
    if size > 0 && offset < |content| {
      SliceClamped(content, offset + 1, size - 1);
    }
  }

  /** Where the second part of a sum agrees with a string, so do their slices. */
  lemma {:induction false} SliceOfSum(a: string, b: string, c: string, lo: nat, n: nat)
    requires |a| <= lo && lo + n <= |a + b| && lo + n <= |c| && (a + b)[..lo + n] == c[..lo + n]
    ensures Slice(b, lo - |a|, n) == Slice(c, lo, n)
    decreases n
  {
    if n > 0 {
      var hi := lo + n;
      assert (a + b)[..hi][lo] == c[..hi][lo];
      SliceOfSum(a, b, c, lo + 1, n - 1);
    }
  }

  /** read_data on whatever blocks there are; `None` stands for iterators that leave their string or list. */
  function ReadOf(blocks: Blocks, bs: nat, filesize: nat, offset: nat, size: nat): Option<string>
    requires bs > 0
  {
    if filesize < offset then Some("") else
      var n := Clamp(filesize, offset, size);
      ReadAt(blocks, bs, Index(offset, bs), Index(offset + n, bs) + 1, offset, n)
  }

  function ReadAt(blocks: Blocks, bs: nat, first: nat, second: nat, offset: nat, n: nat): Option<string> {
    var s := Gather(blocks, bs, first, second);
    if first <= |blocks| && Start(first, bs) <= offset && offset - Start(first, bs) + n <= |s|
    then Some(Slice(s, offset - Start(first, bs), n)) else None
  }

  /** Every read gives the slice of one string. */
  ghost predicate ReadsAs(blocks: Blocks, bs: nat, filesize: nat, content: string)
    requires bs > 0
  {
    forall offset: nat, size: nat :: ReadOf(blocks, bs, filesize, offset, size) == Some(Slice(content, offset, size))
  }

  lemma {:induction false} ReadBounds(bs: nat, offset: nat, n: nat)
    requires bs > 0
    ensures var first, second := Index(offset, bs), Index(offset + n, bs) + 1;
            Start(first, bs) <= offset && offset + n < Start(second, bs) && first < second
  {
    IndexBounds(offset, bs);
    IndexBounds(offset + n, bs);
    IndexLe(offset, offset + n, bs);
  }

  /** The slice that read_data cuts out of the gathered blocks is the slice of the flat file. */
  lemma {:induction false} ReadSliceAt(blocks: Blocks, bs: nat, filesize: nat, first: nat, second: nat, offset: nat, n: nat)
    requires WellCut(blocks, bs, filesize) && offset + n <= filesize
    requires first <= second && Start(first, bs) <= offset && offset + n < Start(second, bs)
    ensures ReadAt(blocks, bs, first, second, offset, n) == Some(Slice(Content(blocks, bs, filesize), offset, n))
  {
    FullBefore(blocks, bs, filesize, first);
    GatherBegins(blocks, bs, filesize, second, offset + n);
    GatherSplit(blocks, bs, 0, first, second);
    SliceOfSum(Gather(blocks, bs, 0, first), Gather(blocks, bs, first, second), Content(blocks, bs, filesize), offset, n);
  }

  lemma {:induction false} ReadSlice(blocks: Blocks, bs: nat, filesize: nat, offset: nat, size: nat)
    requires WellCut(blocks, bs, filesize)
    ensures ReadOf(blocks, bs, filesize, offset, size) == Some(Slice(Content(blocks, bs, filesize), offset, size))
  {
    var content := Content(blocks, bs, filesize);
    if filesize < offset {
      SliceIs(content, offset, size);
    } else {
      var n := Clamp(filesize, offset, size);
      ReadBounds(bs, offset, n);
      ReadSliceAt(blocks, bs, filesize, Index(offset, bs), Index(offset + n, bs) + 1, offset, n);
      SliceClamped(content, offset, size);
    }
  }

  lemma {:induction false} IndexOfStart(i: nat, bs: nat)
    requires bs > 0
    ensures Index(Start(i, bs), bs) == i
  {
    if i > 0 {
      IndexOfStart(i - 1, bs);
    }
  }

  lemma {:induction false} GatherOne(blocks: Blocks, bs: nat, i: nat)
    requires i < |blocks|
    ensures Gather(blocks, bs, i, i + 1) == blocks[i]
  {
    assert Gather(blocks, bs, i, i) == "";
  }

  lemma {:induction false} SliceOfFirst(a: string, b: string, lo: nat, n: nat)
    requires lo + n <= |a|
    ensures Slice(a + b, lo, n) == Slice(a, lo, n)
    decreases n
  {
    if n > 0 {
      SliceOfFirst(a, b, lo + 1, n - 1);
    }
  }

  lemma {:induction false} ReadOfIs(blocks: Blocks, bs: nat, filesize: nat, offset: nat, n: nat)
    requires bs > 0 && offset + n <= filesize
    ensures ReadOf(blocks, bs, filesize, offset, n) == ReadAt(blocks, bs, Index(offset, bs), Index(offset + n, bs) + 1, offset, n)
  {
  }

  /** A read from the start of a block, when the blocks from there on are known. */
  lemma {:induction false} ReadFrom(blocks: Blocks, bs: nat, first: nat, second: nat, g: string, n: nat)
    requires first <= |blocks| && Gather(blocks, bs, first, second) == g
    ensures ReadAt(blocks, bs, first, second, Start(first, bs), n) == if n <= |g| then Some(Slice(g, 0, n)) else None
  {
  }

  /** Reads of blocks that agree as far as the read goes. */
  lemma {:induction false} ReadAtSame(blocks: Blocks, cuts: Blocks, bs: nat, first: nat, second: nat, offset: nat, n: nat)
    requires |blocks| == |cuts| && ReadAt(cuts, bs, first, second, offset, n).Some?
    requires var m := offset - Start(first, bs) + n;
             var g, h := Gather(blocks, bs, first, second), Gather(cuts, bs, first, second);
             m <= |g| && g[..m] == h[..m]
    ensures ReadAt(blocks, bs, first, second, offset, n) == ReadAt(cuts, bs, first, second, offset, n)
  {
    SliceSame(Gather(blocks, bs, first, second), Gather(cuts, bs, first, second), offset - Start(first, bs), n);
  }

  lemma {:induction false} SliceSame(g: string, h: string, lo: nat, n: nat)
    requires lo + n <= |g| && lo + n <= |h| && g[..lo + n] == h[..lo + n]
    ensures Slice(g, lo, n) == Slice(h, lo, n)
    decreases n
  {
    if n > 0 {
      assert g[..lo + n][lo] == h[..lo + n][lo];
      SliceSame(g, h, lo + 1, n - 1);
    }
  }

  lemma {:induction false} ReadAtBlock(blocks: Blocks, bs: nat, i: nat, second: nat, n: nat)
    requires i < second && i < |blocks| && n <= |blocks[i]|
    ensures ReadAt(blocks, bs, i, second, Start(i, bs), n) == Some(Slice(blocks[i], 0, n))
  {
    var rest := Gather(blocks, bs, i + 1, second);
    assert Gather(blocks, bs, i, second) == blocks[i] + rest by {
      GatherSplit(blocks, bs, i, i + 1, second);
      GatherOne(blocks, bs, i);
    }
    SliceOfFirst(blocks[i], rest, 0, n);
  }

  /** A read from the start of a block, no longer than the block, gives its bytes. */
  lemma {:induction false} BlockRead(blocks: Blocks, bs: nat, filesize: nat, i: nat, n: nat)
    requires bs > 0 && i < |blocks| && n <= |blocks[i]| && Start(i, bs) + n <= filesize
    ensures ReadOf(blocks, bs, filesize, Start(i, bs), n) == Some(Slice(blocks[i], 0, n))
  {
    IndexOfStart(i, bs);
    IndexLe(Start(i, bs), Start(i, bs) + n, bs);
    ReadAtBlock(blocks, bs, i, Index(Start(i, bs) + n, bs) + 1, n);
  }

  // ----- cutting -----

  function Min(a: nat, b: nat): nat { if a <= b then a else b }

  /** Block `i` of a flat string. */
  function Cut(data: string, bs: nat, i: nat): (c: string)
    ensures |c| <= bs
  {
    data[Min(Start(i, bs), |data|)..Min(Start(i, bs) + bs, |data|)]
  }

  /** The blocks that writing `data` from the start leaves: one past the last full block, even if empty. */
  function CutAll(data: string, bs: nat): (blocks: Blocks)
    requires bs > 0
    ensures |blocks| == Index(|data|, bs) + 1
    ensures forall i | 0 <= i < |blocks| :: blocks[i] == Cut(data, bs, i)
  {
    Cuts(data, bs, Index(|data|, bs) + 1)
  }

  function Cuts(data: string, bs: nat, n: nat): (blocks: Blocks)
    ensures |blocks| == n && forall i | 0 <= i < n :: blocks[i] == Cut(data, bs, i)
  {
    if n == 0 then [] else Cuts(data, bs, n - 1) + [Cut(data, bs, n - 1)]
  }

  lemma {:induction false} CutNext(data: string, bs: nat, i: nat)
    requires Start(i + 1, bs) <= |data|
    ensures data[..Start(i, bs)] + Cut(data, bs, i) == data[..Start(i + 1, bs)]
  {
  }

  lemma {:induction false} GatherCuts(blocks: Blocks, data: string, bs: nat, m: nat)
    requires m <= |blocks| && Start(m, bs) <= |data| && forall i | 0 <= i < m :: blocks[i] == Cut(data, bs, i)
    ensures Gather(blocks, bs, 0, m) == data[..Start(m, bs)]
  {
    if m > 0 {
      GatherCuts(blocks, data, bs, m - 1);
      CutNext(data, bs, m - 1);
    }
  }

  lemma {:induction false} CutFull(data: string, bs: nat, i: nat)
    requires Start(i + 1, bs) <= |data|
    ensures |Cut(data, bs, i)| == bs
  {
  }

  lemma {:induction false} CutLast(data: string, bs: nat, m: nat)
    requires Start(m, bs) <= |data| < Start(m, bs) + bs
    ensures data[..Start(m, bs)] + Cut(data, bs, m) == data
  {
  }

  /** Cutting and putting together again, on any length, a multiple of the block size included. */
  lemma {:induction false} CutAllIsWellCut(data: string, bs: nat)
    requires bs > 0
    ensures WellCut(CutAll(data, bs), bs, |data|)
    ensures Flat(CutAll(data, bs), bs) == data
  {
    var blocks := CutAll(data, bs);
    var m := Index(|data|, bs);
    IndexBounds(|data|, bs);
    assert Flat(blocks, bs) == data by {
      GatherCuts(blocks, data, bs, m);
      CutLast(data, bs, m);
    }
    forall i | 0 <= i < |blocks| - 1 ensures |blocks[i]| == bs {
      StartLe(i + 1, m, bs);
      CutFull(data, bs, i);
    }
  }

  /** Past the last block of the list a read finds zero bytes. */
  lemma {:induction false} ReadPastBlocks(blocks: Blocks, bs: nat, filesize: nat, offset: nat, n: nat, k: nat)
    requires bs > 0 && Index(offset, bs) == |blocks| && offset + n <= filesize && k < n
    ensures ReadOf(blocks, bs, filesize, offset, n).Some?
    ensures var r := ReadOf(blocks, bs, filesize, offset, n).value; |r| == n && r[k] == '\0'
  {
    var first, second := Index(offset, bs), Index(offset + n, bs) + 1;
    ReadBounds(bs, offset, n);
    GatherZeros(blocks, bs, first, second);
    StartDifference(first, second, bs);
    ReadOfIs(blocks, bs, filesize, offset, n);
    SliceOfZeros(Start(second - first, bs), offset - Start(first, bs), n, k);
  }

  lemma {:induction false} StartDifference(i: nat, j: nat, bs: nat)
    requires i <= j
    ensures Start(j - i, bs) == Start(j, bs) - Start(i, bs)
  {
    if i < j {
      StartDifference(i, j - 1, bs);
    }
  }

  lemma {:induction false} SliceOfZeros(m: nat, lo: nat, n: nat, k: nat)
    requires lo + n <= m && k < n
    ensures |Slice(Zeros(m), lo, n)| == n && Slice(Zeros(m), lo, n)[k] == '\0'
    decreases n
  {
    ZerosAt(m, lo);
    SliceLength(Zeros(m), lo, n);
    if k > 0 {
      SliceOfZeros(m, lo + 1, n - 1, k - 1);
    }
  }

  lemma {:induction false} ZerosAt(m: nat, k: nat)
    requires k < m
    ensures Zeros(m)[k] == '\0'
  {
    if k < m - 1 {
      ZerosAt(m - 1, k);
    }
  }

  // ----- the blocks of a file with a given content -----

  ghost predicate HoldsContent(blocks: Blocks, bs: nat, data: string) {
    WellCut(blocks, bs, |data|) && Content(blocks, bs, |data|) == data
  }

  /** The blocks reach the last byte. */
  lemma {:induction false} BlockThere(blocks: Blocks, bs: nat, data: string, i: nat)
    requires HoldsContent(blocks, bs, data) && Start(i, bs) < |data|
    ensures i < |blocks| && |blocks[i]| >= |Cut(data, bs, i)|
  {
    FlatSize(blocks, bs, |data|);
    if i >= |blocks| {
      StartLe(|blocks|, i, bs);
    }
  }

  lemma {:induction false} SplitAround(blocks: Blocks, bs: nat, i: nat)
    requires i < |blocks|
    ensures Flat(blocks, bs) == Gather(blocks, bs, 0, i) + blocks[i] + Gather(blocks, bs, i + 1, |blocks|)
  {
    GatherSplit(blocks, bs, 0, i, |blocks|);
    GatherSplit(blocks, bs, i, i + 1, |blocks|);
    GatherOne(blocks, bs, i);
  }

  lemma {:induction false} MiddleOf(a: string, b: string, c: string, n: nat, hi: nat)
    requires |a| <= hi <= n <= |a + b + c| && hi <= |a| + |b|
    ensures (a + b + c)[..n][|a|..hi] == b[..hi - |a|]
  {
  }

  /** Each block begins with its part of the content. */
  lemma {:induction false} BlockBegins(blocks: Blocks, bs: nat, data: string, i: nat)
    requires HoldsContent(blocks, bs, data) && Start(i, bs) < |data|
    ensures i < |blocks| && |Cut(data, bs, i)| <= |blocks[i]|
    ensures blocks[i][..|Cut(data, bs, i)|] == Cut(data, bs, i)
  {
    BlockThere(blocks, bs, data, i);
    SplitAround(blocks, bs, i);
    FullBefore(blocks, bs, |data|, i);
    MiddleOf(Gather(blocks, bs, 0, i), blocks[i], Gather(blocks, bs, i + 1, |blocks|), |data|, Min(Start(i, bs) + bs, |data|));
  }

  /** A block whose part of the content is whole is just that. */
  lemma {:induction false} FullBlockIs(blocks: Blocks, bs: nat, data: string, i: nat)
    requires HoldsContent(blocks, bs, data) && Start(i, bs) + bs <= |data|
    ensures i < |blocks| && blocks[i] == Cut(data, bs, i)
  {
    BlockBegins(blocks, bs, data, i);
    assert |blocks[i]| <= bs;
    assert blocks[i][..|blocks[i]|] == blocks[i];
  }

  /** A read tells a wrong size. */
  lemma {:induction false} SizeShows(blocks: Blocks, bs: nat, filesize: nat, content: string)
    requires bs > 0 && filesize != |content|
    ensures ReadOf(blocks, bs, filesize, 0, filesize + |content|) != Some(Slice(content, 0, filesize + |content|))
  {
    var size := filesize + |content|;
    SliceLength(content, 0, size);
    SliceLength(Gather(blocks, bs, Index(0, bs), Index(filesize, bs) + 1), 0, filesize);
  }

  lemma {:induction false} SliceLength(content: string, offset: nat, size: nat)
    requires offset <= |content|
    ensures |Slice(content, offset, size)| == Clamp(|content|, offset, size)
    decreases size
  {
    if size > 0 && offset < |content| {
      SliceLength(content, offset + 1, size - 1);
    }
  }
}
