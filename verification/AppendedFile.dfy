/** The blocks that a write at the end of a file leaves, given what it found in the block files: when they are
    the blocks of the longer file. */
module AppendedFile {
  import opened FlatFile
  import opened OpenFile
  import opened WriteSession

  /** Blocks and size after a write of `s` at the end of `data`, and the block files `held` that it found. */
  datatype After = After(blocks: Blocks, bs: nat, size: nat, data: string, s: string, held: Cache)
  {
    function First(): nat
      requires bs > 0
    {
      Index(|data|, bs)
    }

    function Last(): nat
      requires bs > 0
    {
      Index(|data| + |s|, bs)
    }

    /** What the first touched block should begin with. */
    function Right(): string
      requires bs > 0
    {
      Cut(data, bs, Index(|data|, bs))
    }

    /** What it does begin with. */
    function Tail(): string
      requires bs > 0
    {
      FileAt(held, Index(|data|, bs))
    }

    ghost predicate BelowAt(i: nat) { i < |blocks| && blocks[i] == Cut(data, bs, i) }

    ghost predicate TouchedAt(i: nat) { i < |blocks| && blocks[i] == FileAt(held, i) + Piece(bs, |data|, s, i) }

    ghost predicate AllBelow()
      requires bs > 0
    {
      forall i: nat | i < First() :: BelowAt(i)
    }

    ghost predicate AllTouched()
      requires bs > 0
    {
      forall i: nat | First() <= i <= Last() :: TouchedAt(i)
    }

    predicate TailFits()
      requires bs > 0
    {
      Tail() == "" || Right() <= Tail()
    }

    /** The size reaches to the end of the last touched block, or stays what it was. */
    predicate SizeFits()
      requires bs > 0
    {
      Last() < |blocks| && var end := Start(Last(), bs) + |blocks[Last()]|; size == if |data| > end then |data| else end
    }

    ghost predicate Shape() {
      bs > 0 && AllBelow() && AllTouched() && TailFits() && SizeFits()
    }

    /** The write found the bytes that it has to come after and nothing else, and no block lies beyond it. */
    ghost predicate TailAtHand()
      requires bs > 0
    {
      && |Tail()| == |Right()|
      && (forall i | First() < i <= Last() :: FileAt(held, i) == "")
      && |blocks| == Last() + 1
    }
  }

  /** Numbers: the file's end within its block, before and after. */
  lemma {:induction false} Positions(v: After)
    requires v.bs > 0
    ensures v.First() <= v.Last()
    ensures |v.data| == Start(v.First(), v.bs) + |v.Right()| && |v.Right()| < v.bs
    ensures Start(v.Last(), v.bs) <= |v.data| + |v.s| < Start(v.Last(), v.bs) + v.bs
  {
    IndexLe(|v.data|, |v.data| + |v.s|, v.bs);
    IndexBounds(|v.data|, v.bs);
    IndexBounds(|v.data| + |v.s|, v.bs);
  }

  /** The pieces fill their blocks, up to the end. */
  lemma {:induction false} PieceSizes(v: After, i: nat)
    requires v.bs > 0 && v.First() <= i <= v.Last()
    ensures |Piece(v.bs, |v.data|, v.s, i)| ==
              (if i == v.Last() then |v.data| + |v.s| - Start(i, v.bs) else v.bs) - (if i == v.First() then |v.Right()| else 0)
  {
    Positions(v);
    PieceLength(v.bs, |v.data|, |v.s|, i);
  }

  lemma {:induction false} BlockSizes(v: After, i: nat)
    requires v.Shape() && v.First() <= i <= v.Last()
    ensures |v.blocks[i]| == |FileAt(v.held, i)| +
              (if i == v.Last() then |v.data| + |v.s| - Start(i, v.bs) else v.bs) - (if i == v.First() then |v.Right()| else 0)
  {
    assert v.TouchedAt(i);
    PieceSizes(v, i);
  }

  // ----- the blocks are right only if the tail was at hand -----

  /** Well cut and of the right size: the block the end falls into is the last one. */
  lemma {:induction false} NothingBeyond(v: After)
    requires v.Shape() && WellCut(v.blocks, v.bs, v.size) && v.size == |v.data| + |v.s|
    ensures |v.blocks| == v.Last() + 1
  {
    Positions(v);
    ShortIsLast(v.blocks, v.bs, v.size, v.Last());
  }

  lemma {:induction false} ShortIsLast(blocks: Blocks, bs: nat, size: nat, i: nat)
    requires WellCut(blocks, bs, size) && i < |blocks| && |blocks[i]| < bs
    ensures |blocks| == i + 1
  {
  }

  lemma {:induction false} LaterWereEmpty(v: After, i: nat)
    requires v.Shape() && WellCut(v.blocks, v.bs, v.size) && v.size == |v.data| + |v.s| && |v.blocks| == v.Last() + 1
    requires v.First() < i <= v.Last()
    ensures FileAt(v.held, i) == ""
  {
    BlockSizes(v, i);
    if i < v.Last() {
      assert |v.blocks[i]| == v.bs;
    }
  }

  lemma {:induction false} FirstHeldTail(v: After)
    requires v.Shape() && WellCut(v.blocks, v.bs, v.size) && v.size == |v.data| + |v.s| && |v.blocks| == v.Last() + 1
    ensures |v.Tail()| == |v.Right()|
  {
    Positions(v);
    BlockSizes(v, v.First());
    if v.First() < v.Last() {
      assert |v.blocks[v.First()]| == v.bs;
    } else {
      FlatSize(v.blocks, v.bs, v.size);
    }
  }

  lemma {:induction false} RightHadTail(v: After)
    requires v.Shape() && WellCut(v.blocks, v.bs, v.size) && v.size == |v.data| + |v.s|
    ensures v.TailAtHand()
  {
    NothingBeyond(v);
    FirstHeldTail(v);
    forall i | v.First() < i <= v.Last() ensures FileAt(v.held, i) == "" {
      LaterWereEmpty(v, i);
    }
  }

  // ----- and they are right if it was -----

  lemma {:induction false} TailIsRight(v: After)
    requires v.Shape() && |v.Tail()| == |v.Right()|
    ensures v.Tail() == v.Right()
  {
  }

  /** The longer file's block, by where it lies. */
  lemma {:induction false} CutCases(data: string, s: string, bs: nat, i: nat)
    requires bs > 0 && i <= Index(|data| + |s|, bs)
    ensures i < Index(|data|, bs) ==> Cut(data + s, bs, i) == Cut(data, bs, i)
    ensures i == Index(|data|, bs) ==> Cut(data + s, bs, i) == Cut(data, bs, i) + Piece(bs, |data|, s, i)
    ensures i > Index(|data|, bs) ==> Cut(data + s, bs, i) == Piece(bs, |data|, s, i)
  {
    CutExtends(data, s, bs, i);
    if i > Index(|data|, bs) {
      CutPast(data, bs, i);
    }
  }

  lemma {:induction false} TouchedIsRight(v: After, i: nat)
    requires v.bs > 0 && v.First() <= i <= v.Last() && v.TouchedAt(i)
    requires FileAt(v.held, i) == if i == v.First() then v.Right() else ""
    ensures v.blocks[i] == Cut(v.data + v.s, v.bs, i)
  {
    CutCases(v.data, v.s, v.bs, i);
    assert "" + Piece(v.bs, |v.data|, v.s, i) == Piece(v.bs, |v.data|, v.s, i);
  }

  lemma {:induction false} BlockIsRight(v: After, i: nat)
    requires v.Shape() && v.TailAtHand() && i <= v.Last()
    ensures i < |v.blocks| && v.blocks[i] == Cut(v.data + v.s, v.bs, i)
  {
    if i < v.First() {
      assert v.BelowAt(i);
      CutCases(v.data, v.s, v.bs, i);
    } else {
      assert v.TouchedAt(i);
      if i == v.First() {
        TailIsRight(v);
      }
      TouchedIsRight(v, i);
    }
  }

  lemma {:induction false} SizeIsRight(v: After)
    requires v.Shape() && v.TailAtHand()
    ensures v.size == |v.data| + |v.s|
  {
    Positions(v);
    BlockSizes(v, v.Last());
  }

  lemma {:induction false} CutsHold(blocks: Blocks, bs: nat, all: string)
    requires bs > 0 && |blocks| == Index(|all|, bs) + 1 && forall i | 0 <= i < |blocks| :: blocks[i] == Cut(all, bs, i)
    ensures HoldsContent(blocks, bs, all)
  {
    assert blocks == CutAll(all, bs);
    CutAllIsWellCut(all, bs);
    assert all[..|all|] == all;
  }

  lemma {:induction false} TailMakesRight(v: After)
    requires v.Shape() && v.TailAtHand()
    ensures v.size == |v.data| + |v.s| && HoldsContent(v.blocks, v.bs, v.data + v.s)
  {
    SizeIsRight(v);
    assert |v.data + v.s| == |v.data| + |v.s|;
    assert forall i | 0 <= i < |v.blocks| :: v.blocks[i] == Cut(v.data + v.s, v.bs, i) by {
      forall i | 0 <= i < |v.blocks| ensures v.blocks[i] == Cut(v.data + v.s, v.bs, i) {
        BlockIsRight(v, i);
      }
    }
    CutsHold(v.blocks, v.bs, v.data + v.s);
  }

  /** The blocks hold the longer file, and the size is its size, if and only if the tail and nothing else was at hand. */
  lemma {:induction false} RightIff(v: After)
    requires v.Shape()
    ensures v.size == |v.data| + |v.s| && HoldsContent(v.blocks, v.bs, v.data + v.s) <==> v.TailAtHand()
  {
    if v.TailAtHand() {
      TailMakesRight(v);
    }
    if v.size == |v.data| + |v.s| && HoldsContent(v.blocks, v.bs, v.data + v.s) {
      RightHadTail(v);
    }
  }
}
