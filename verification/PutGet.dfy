/** Whole files: put cuts them with one reused buffer, get joins the blocks and cuts to size. */
module PutGet {
  import opened Results
  import opened FlatFile
  import opened OpenFile

  /** The buffer after `i` reads: a short read leaves the end of what was there before. */
  function Buffer(src: string, bs: nat, i: nat): (b: string)
    ensures |b| == bs
  {
    if i == 0 then Zeros(bs)
    else var c := Cut(src, bs, i - 1); c + Buffer(src, bs, i - 1)[|c|..]
  }

  function Buffers(src: string, bs: nat, n: nat): (blocks: Blocks)
    ensures |blocks| == n
  {
    if n == 0 then [] else Buffers(src, bs, n - 1) + [Buffer(src, bs, n)]
  }

  lemma {:induction false} BuffersAt(src: string, bs: nat, n: nat, i: nat)
    requires i < n
    ensures Buffers(src, bs, n)[i] == Buffer(src, bs, i + 1)
  {
    var before := Buffers(src, bs, n - 1);
    assert Buffers(src, bs, n) == before + [Buffer(src, bs, n)];
    if i < n - 1 {
      assert before[i] == Buffer(src, bs, i + 1) by { BuffersAt(src, bs, n - 1, i); }
    }
  }

  /** As many reads as it takes to see the whole file, and none for an empty one. */
  ghost predicate Reads(size: nat, bs: nat, n: nat) {
    if n == 0 then size == 0 else Start(n - 1, bs) < size <= Start(n, bs)
  }

  /** ifile.read: as many bytes as there are, into the front of the buffer. */
  method ReadInto(buffer: array<char>, src: string, pos: nat, count: nat)
    requires count <= buffer.Length && pos + count <= |src|
    modifies buffer
    ensures buffer[..] == src[pos..pos + count] + old(buffer[..])[count..]
  {
    for k := 0 to count
      invariant forall j | 0 <= j < k :: buffer[j] == src[pos + j]
      invariant forall j | k <= j < buffer.Length :: buffer[j] == old(buffer[j])
    {
      buffer[k] := src[pos + k];
    }
  }

  lemma {:induction false} AllZeros(s: string)
    requires forall j | 0 <= j < |s| :: s[j] == '\0'
    ensures s == Zeros(|s|)
  {
    if |s| > 0 {
      AllZeros(s[..|s| - 1]);
      assert s == s[..|s| - 1] + [s[|s| - 1]];
    }
  }

  method NewBuffer(bs: nat) returns (buffer: array<char>)
    ensures fresh(buffer) && buffer[..] == Zeros(bs)
  {
    buffer := new char[bs](_ => '\0');
    AllZeros(buffer[..]);
  }

  /** The reading loop of put: the blocks that go to encode_one. */
  method PutBlocks(src: string, bs: nat) returns (blocks: Blocks)
    requires bs > 0
    ensures Reads(|src|, bs, |blocks|) && blocks == Buffers(src, bs, |blocks|)
  {
    var buffer := NewBuffer(bs);
    blocks := [];
    var pos := 0;
    while pos < |src|
      invariant fresh(buffer)
      invariant pos == Min(Start(|blocks|, bs), |src|) && Reads(pos, bs, |blocks|)
      invariant blocks == Buffers(src, bs, |blocks|) && buffer[..] == Buffer(src, bs, |blocks|)
      decreases |src| - pos
    {
      var count := if |src| - pos < bs then |src| - pos else bs;
      assert src[pos..pos + count] == Cut(src, bs, |blocks|);
      ReadInto(buffer, src, pos, count);
      pos := pos + count;
      blocks := blocks + [buffer[..]];
    }
  }

  function Resized(s: string, n: nat): (r: string)
    ensures |r| == n
  {
    if n <= |s| then s[..n] else s + Zeros(n - |s|)
  }

  /** get: every block decoded, then resize_file. */
  method Get(dec: Decoder, sub: seq<string>, filesize: nat, ghost bs: nat) returns (file: string)
    ensures file == Resized(Flat(Decodeds(dec, sub), bs), filesize)
  {
    file := "";
    for i := 0 to |sub|
      invariant file == Gather(Decodeds(dec, sub), bs, 0, i)
    {
      DecodedAt(dec, sub, |sub|, i);
      file := file + Decode(dec, sub[i]);
    }
    file := Resized(file, filesize);
  }

  /** A block that was read in full is that part of the file. */
  lemma {:induction false} BufferFull(src: string, bs: nat, i: nat)
    requires Start(i, bs) + bs <= |src|
    ensures Buffer(src, bs, i + 1) == Cut(src, bs, i)
  {
  }

  lemma {:induction false} CutTail(src: string, bs: nat, i: nat)
    requires Start(i, bs) <= |src| <= Start(i, bs) + bs
    ensures Cut(src, bs, i) == src[Start(i, bs)..]
  {
  }

  lemma {:induction false} Splice(src: string, lo: nat, rest: string)
    requires lo <= |src|
    ensures src[..lo] + (src[lo..] + rest) == src + rest
  {
  }

  lemma {:induction false} BufferLast(src: string, bs: nat, i: nat)
    requires Start(i, bs) <= |src| <= Start(i, bs) + bs
    ensures src[..Start(i, bs)] + Buffer(src, bs, i + 1) == src + Buffer(src, bs, i)[|src| - Start(i, bs)..]
  {
    CutTail(src, bs, i);
    Splice(src, Start(i, bs), Buffer(src, bs, i)[|src| - Start(i, bs)..]);
  }

  /** What a short last read leaves at the end of its block. */
  function Leftover(src: string, bs: nat, n: nat): string
    requires Reads(|src|, bs, n)
  {
    if n == 0 then ""
    else if n == 1 then Zeros(bs - |src|)
    else Cut(src, bs, n - 2)[|src| - Start(n - 1, bs)..]
  }

  lemma {:induction false} LeftoverIs(src: string, bs: nat, n: nat)
    requires bs > 0 && n > 0 && Reads(|src|, bs, n)
    ensures Buffer(src, bs, n - 1)[|src| - Start(n - 1, bs)..] == Leftover(src, bs, n)
  {
    if n == 1 {
      var k := |src|;
      ZerosPlus(k, bs - k);
      assert Zeros(bs)[k..] == Zeros(bs - k);
    } else {
      BufferFull(src, bs, n - 2);
    }
  }

  lemma {:induction false} PutPrefix(src: string, bs: nat, n: nat)
    requires bs > 0 && n > 0 && Reads(|src|, bs, n)
    ensures forall i | 0 <= i < n - 1 :: Buffers(src, bs, n)[i] == Cut(src, bs, i)
    ensures Gather(Buffers(src, bs, n), bs, 0, n - 1) == src[..Start(n - 1, bs)]
  {
    forall i | 0 <= i < n - 1 ensures Buffers(src, bs, n)[i] == Cut(src, bs, i) {
      BuffersAt(src, bs, n, i);
      StartLe(i + 1, n - 1, bs);
      BufferFull(src, bs, i);
    }
    GatherCuts(Buffers(src, bs, n), src, bs, n - 1);
  }

  /** The blocks hold the file followed by exactly the leftover bytes of the reused buffer, fewer than a block. */
  lemma {:induction false} PutHolds(src: string, bs: nat, n: nat)
    requires bs > 0 && Reads(|src|, bs, n)
    ensures Flat(Buffers(src, bs, n), bs) == src + Leftover(src, bs, n)
    ensures |Leftover(src, bs, n)| == Start(n, bs) - |src| < bs
  {
    if n > 0 {
      PutFlat(src, bs, n);
      LastBufferHolds(src, bs, n);
    }
    LeftoverSize(src, bs, n);
  }

  lemma {:induction false} PutFlat(src: string, bs: nat, n: nat)
    requires bs > 0 && n > 0 && Reads(|src|, bs, n)
    ensures Flat(Buffers(src, bs, n), bs) == src[..Start(n - 1, bs)] + Buffer(src, bs, n)
  {
    PutPrefix(src, bs, n);
    BuffersAt(src, bs, n, n - 1);
  }

  lemma {:induction false} LastBufferHolds(src: string, bs: nat, n: nat)
    requires bs > 0 && n > 0 && Reads(|src|, bs, n)
    ensures src[..Start(n - 1, bs)] + Buffer(src, bs, n) == src + Leftover(src, bs, n)
  {
    LeftoverIs(src, bs, n);
    BufferLast(src, bs, n - 1);
  }

  lemma {:induction false} LeftoverSize(src: string, bs: nat, n: nat)
    requires bs > 0 && Reads(|src|, bs, n)
    ensures |Leftover(src, bs, n)| == Start(n, bs) - |src| < bs
  {
    if n > 1 {
      CutFull(src, bs, n - 2);
    }
  }

  /** Those bytes one by one: what stood a block earlier in the file, or zeros if there is only one block. */
  lemma {:induction false} LeftoverByte(src: string, bs: nat, n: nat, k: nat)
    requires bs > 0 && n > 0 && Reads(|src|, bs, n) && |src| <= k < Start(n, bs)
    ensures |Flat(Buffers(src, bs, n), bs)| == Start(n, bs)
    ensures Flat(Buffers(src, bs, n), bs)[k] == if n == 1 then '\0' else src[k - bs]
  {
    PutHolds(src, bs, n);
    var left := Leftover(src, bs, n);
    assert (src + left)[k] == left[k - |src|];
    if n == 1 {
      ZerosAt(bs - |src|, k - |src|);
    } else {
      CutByte(src, bs, n - 2, k - Start(n - 1, bs));
    }
  }

  lemma {:induction false} CutByte(src: string, bs: nat, i: nat, k: nat)
    requires k < bs && Start(i, bs) + bs <= |src|
    ensures |Cut(src, bs, i)| == bs && Cut(src, bs, i)[k] == src[Start(i, bs) + k]
  {
  }

  /** get always makes a file of the inode's size: cut off, or filled up with zero bytes. */
  lemma {:induction false} ResizedByte(s: string, n: nat, k: nat)
    requires k < n
    ensures Resized(s, n)[k] == if k < |s| then s[k] else '\0'
  {
    if |s| <= k {
      ZerosAt(n - |s|, k - |s|);
    }
  }

  /** A file that was put can be read in slices as well. */
  lemma {:induction false} PutIsWellCut(src: string, bs: nat, n: nat)
    requires bs > 0 && Reads(|src|, bs, n)
    ensures WellCut(Buffers(src, bs, n), bs, |src|) && Content(Buffers(src, bs, n), bs, |src|) == src
  {
    PutHolds(src, bs, n);
    forall i | 0 <= i < n ensures |Buffers(src, bs, n)[i]| == bs {
      BuffersAt(src, bs, n, i);
    }
  }

  /** Cutting to size removes exactly the leftover. */
  lemma {:induction false} ResizeRemovesLeftover(src: string, bs: nat, n: nat)
    requires bs > 0 && Reads(|src|, bs, n)
    ensures Resized(Flat(Buffers(src, bs, n), bs), |src|) == src
  {
    PutHolds(src, bs, n);
  }

  lemma {:induction false} DecodedBlocks(dec: Decoder, sub: seq<string>, blocks: Blocks)
    requires |sub| == |blocks| && forall i | 0 <= i < |sub| :: Decode(dec, sub[i]) == blocks[i]
    ensures Decodeds(dec, sub) == blocks
  {
    forall i | 0 <= i < |sub| ensures Decodeds(dec, sub)[i] == blocks[i] {
      DecodedAt(dec, sub, |sub|, i);
    }
  }

  /** encode_one returned a fragment list for the block, and it decodes to the block. */
  ghost predicate Encodes(dec: Decoder, enc: map<string, string>, block: string) {
    block in enc && Decode(dec, enc[block]) == block
  }

  /** The put loop with its encode_one calls. */
  method Put(src: string, bs: nat, enc: map<string, string>, ghost dec: Decoder) returns (sub: seq<string>)
    requires bs > 0 && forall i: nat | Start(i, bs) < |src| :: Encodes(dec, enc, Buffer(src, bs, i + 1))
    ensures Reads(|src|, bs, |sub|) && Decodeds(dec, sub) == Buffers(src, bs, |sub|)
  {
    var blocks := PutBlocks(src, bs);
    BlocksEncode(src, bs, enc, dec, |blocks|);
    sub := EncodeAll(blocks, enc, dec);
    DecodedBlocks(dec, sub, blocks);
  }

  lemma {:induction false} BlocksEncode(src: string, bs: nat, enc: map<string, string>, dec: Decoder, n: nat)
    requires Reads(|src|, bs, n) && forall i: nat | Start(i, bs) < |src| :: Encodes(dec, enc, Buffer(src, bs, i + 1))
    ensures forall i | 0 <= i < n :: Encodes(dec, enc, Buffers(src, bs, n)[i])
  {
    var blocks := Buffers(src, bs, n);
    forall i | 0 <= i < n ensures Encodes(dec, enc, blocks[i]) {
      BuffersAt(src, bs, n, i);
      StartLe(i, n - 1, bs);
    }
  }

  method EncodeAll(blocks: Blocks, enc: map<string, string>, ghost dec: Decoder) returns (sub: seq<string>)
    requires forall i | 0 <= i < |blocks| :: Encodes(dec, enc, blocks[i])
    ensures |sub| == |blocks| && forall i | 0 <= i < |blocks| :: Decode(dec, sub[i]) == blocks[i]
  {
    sub := [];
    for i := 0 to |blocks|
      invariant |sub| == i && forall j | 0 <= j < i :: Decode(dec, sub[j]) == blocks[j]
    {
      assert Encodes(dec, enc, blocks[i]);
      sub := sub + [enc[blocks[i]]];
    }
  }

  /** Put then get gives the file back, whatever its length, when each block decodes to what was encoded. */
  method PutThenGet(src: string, bs: nat, enc: map<string, string>, dec: Decoder) returns (file: string)
    requires bs > 0 && forall i: nat | Start(i, bs) < |src| :: Encodes(dec, enc, Buffer(src, bs, i + 1))
    ensures file == src
  {
    var sub := Put(src, bs, enc, dec);
    file := Get(dec, sub, |src|, bs);
    ResizeRemovesLeftover(src, bs, |sub|);
  }

  /** A slice read from a file that was put is a slice of the file. */
  method PutThenRead(src: string, bs: int32, enc: map<string, string>, dec: Decoder, offset: nat, size: nat) returns (r: string)
    requires 0 < bs && |src| + bs < INT_LIMIT
    requires forall i: nat | Start(i, bs) < |src| :: Encodes(dec, enc, Buffer(src, bs, i + 1))
    ensures r == Slice(src, offset, size)
  {
    var sub := Put(src, bs, enc, dec);
    PutIsWellCut(src, bs, |sub|);
    var file := new File(bs, dec, sub, |src|, map[]);
    var read := file.ReadData(offset, size);
    r := read.value;
  }
}
