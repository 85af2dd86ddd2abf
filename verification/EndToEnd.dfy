/** From the bytes an application writes, through fragments on datanodes that come and go, back to the bytes it reads. */
module EndToEnd {
  import opened Results
  import opened FlatFile
  import opened OpenFile
  import WriteSession
  import PutGet
  import opened FragmentText
  import opened Placement
  import opened Fragments

  /** One block's life: the nodes it was spread over, which uploads went through, and what the listed
      datanodes send when it is read. */
  datatype Trip = Trip(nodes: seq<string>, outcomes: seq<bool>, replies: seq<Option<string>>)

  /** encode_one returned `text` for the block, and enough of the stored fragments come back unharmed. */
  ghost predicate Survives(c: Code, hash: string -> string, block: string, trip: Trip, text: string) {
    var frags := c.encode(block);
    && trip.nodes != [] && (forall v | 0 <= v < |trip.nodes| :: Canonical(trip.nodes[v]))
    && 0 < Count(trip.outcomes) <= |frags| && |trip.replies| == Count(trip.outcomes)
    && EncodeOneSub(Stored(frags, trip.nodes, hash, trip.outcomes)) == Ok(text)
    && NoCollision(hash, frags, trip.replies) && Intact(frags, trip.replies, |trip.replies|) >= c.k
  }

  /** `dec` gives what decode_one makes of the text and the replies. */
  ghost predicate Decodes(c: Code, hash: string -> string, trip: Trip, text: string, dec: Decoder) {
    |DecodeOneSub(text)| == |trip.replies| ==> Decode(dec, text) == Decoded(c, hash, DecodeOneSub(text), trip.replies)
  }

  lemma {:induction false} TripReturns(c: Code, hash: string -> string, block: string, trip: Trip, text: string, dec: Decoder)
    requires AnyKDecode(c) && PlainHashes(hash) && Survives(c, hash, block, trip, text) && Decodes(c, hash, trip, text, dec)
    ensures Decode(dec, text) == block
  {
    BlockSurvives(c, hash, block, trip.nodes, trip.outcomes, trip.replies);
  }

  /** Every block of a write session makes such a trip. */
  ghost predicate AllReturn(c: Code, hash: string -> string, bs: nat, data: string, trips: seq<Trip>, texts: map<nat, string>, dec: Decoder)
    requires bs > 0
  {
    |trips| == Index(|data|, bs) + 1 &&
    forall i | 0 <= i < |trips| ::
      i in texts && Survives(c, hash, Cut(data, bs, i), trips[i], texts[i]) && Decodes(c, hash, trips[i], texts[i], dec)
  }

  lemma {:induction false} SessionEncodes(c: Code, hash: string -> string, bs: nat, data: string, trips: seq<Trip>, texts: map<nat, string>, dec: Decoder)
    requires bs > 0 && AnyKDecode(c) && PlainHashes(hash) && AllReturn(c, hash, bs, data, trips, texts, dec)
    ensures WriteSession.Encodes(dec, texts, bs, data)
  {
    forall i: nat | i <= Index(|data|, bs) ensures i in texts && Decode(dec, texts[i]) == Cut(data, bs, i) {
      TripReturns(c, hash, Cut(data, bs, i), trips[i], texts[i], dec);
    }
  }

  /** Whatever the writes, whichever uploads fail, and whichever datanodes later lose or alter their
      fragments: as long as each block keeps k good ones, every read gives the bytes written. */
  method WrittenIsRead(ghost c: Code, ghost hash: string -> string, blockSize: int32, writes: seq<string>, ghost trips: seq<Trip>,
                       texts: map<nat, string>, dec: Decoder, warm: bool, offset: nat, size: nat) returns (r: string)
    requires 0 < blockSize && |WriteSession.Concat(writes)| + blockSize < INT_LIMIT
    requires AnyKDecode(c) && PlainHashes(hash) && AllReturn(c, hash, blockSize, WriteSession.Concat(writes), trips, texts, dec)
    ensures r == Slice(WriteSession.Concat(writes), offset, size)
  {
    SessionEncodes(c, hash, blockSize, WriteSession.Concat(writes), trips, texts, dec);
    r := WriteSession.WriteCloseRead(blockSize, dec, writes, texts, warm, offset, size);
  }

  /** The same for a whole file that was put and got. */
  method PutIsGot(ghost c: Code, ghost hash: string -> string, src: string, bs: nat, ghost trips: map<nat, Trip>,
                  enc: map<string, string>, dec: Decoder) returns (file: string)
    requires bs > 0 && AnyKDecode(c) && PlainHashes(hash)
    requires forall i: nat | Start(i, bs) < |src| ::
               && i in trips && PutGet.Buffer(src, bs, i + 1) in enc
               && Survives(c, hash, PutGet.Buffer(src, bs, i + 1), trips[i], enc[PutGet.Buffer(src, bs, i + 1)])
               && Decodes(c, hash, trips[i], enc[PutGet.Buffer(src, bs, i + 1)], dec)
    ensures file == src
  {
    forall i: nat | Start(i, bs) < |src| ensures PutGet.Encodes(dec, enc, PutGet.Buffer(src, bs, i + 1)) {
      var block := PutGet.Buffer(src, bs, i + 1);
      TripReturns(c, hash, block, trips[i], enc[block], dec);
    }
    file := PutGet.PutThenGet(src, bs, enc, dec);
  }
}
