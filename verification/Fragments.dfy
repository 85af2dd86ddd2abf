/** Reading a block back from its fragments: decode_one asks for every fragment in turn, throws
    away what does not match its hash, and decodes the first k good ones. */
module Fragments {
  import opened Results
  import opened Text
  import opened StorageText
  import opened FragmentText
  import opened Placement

  /** An erasure code: a block becomes fragments, `k` of which rebuild it. */
  datatype Code = Code(k: nat, encode: string -> seq<string>, decode: seq<string> -> string)

  ghost predicate Increasing(idx: seq<nat>) {
    forall i, j | 0 <= i < j < |idx| :: idx[i] < idx[j]
  }

  function Select(frags: seq<string>, idx: seq<nat>): (sel: seq<string>)
    requires forall i | 0 <= i < |idx| :: idx[i] < |frags|
    ensures |sel| == |idx| && forall i | 0 <= i < |idx| :: sel[i] == frags[idx[i]]
  {
    seq(|idx|, i requires 0 <= i < |idx| => frags[idx[i]])
  }

  /** Any k different fragments of a block, in order, decode to that block. */
  ghost predicate AnyKDecode(c: Code) {
    && c.k >= 1
    && forall block: string, idx: seq<nat> {:trigger Select(c.encode(block), idx)} ::
         |idx| == c.k && Increasing(idx) && (forall i | 0 <= i < |idx| :: idx[i] < |c.encode(block)|) ==>
           c.decode(Select(c.encode(block), idx)) == block
  }

  // ----- the replication type is such a code -----

  method ReplicateLoop(data: string, replications: int) returns (vec: seq<string>)
    ensures vec == Replicate(data, replications)
  {
    vec := [];
    var i := 0;
    while i < replications
      invariant 0 <= i && (i <= replications || i == 0)
      invariant vec == Replicate(data, i)
    {
      vec := vec + [data];
      i := i + 1;
    }
  }

  function Replicate(data: string, replications: int): (vec: seq<string>)
    ensures |vec| == if replications < 0 then 0 else replications
    ensures forall i | 0 <= i < |vec| :: vec[i] == data
  {
    if replications <= 0 then [] else Replicate(data, replications - 1) + [data]
  }

  /** The code of `RE<r,b>`: r copies, any one of which is the block. */
  function ReplicationCode(r: int): Code {
    Code(1, data => Replicate(data, r), (vec: seq<string>) => if vec == [] then "" else vec[0])
  }

  lemma {:induction false} ReplicationDecodes(t: StorageType, data: string)
    requires t.RE? && t.replications >= 0
    ensures AnyKDecode(ReplicationCode(t.replications))
    ensures ReplicationCode(t.replications).k == 1
    ensures |ReplicationCode(t.replications).encode(data)| == t.replications
  {
  }

  // ----- decode_one -----

  /** A reply is good when it arrived and its hash is the one it was asked for by. */
  predicate Good(hash: string -> string, ps: seq<Placed>, replies: seq<Option<string>>, i: nat)
    requires i < |ps| == |replies|
  {
    replies[i].Some? && hash(replies[i].value) == ps[i].hash
  }

  /** The positions of the good replies among the first `n`. */
  function GoodOnes(hash: string -> string, ps: seq<Placed>, replies: seq<Option<string>>, n: nat): (idx: seq<nat>)
    requires n <= |ps| == |replies|
    ensures Increasing(idx) && |idx| <= n
    ensures forall i | 0 <= i < |idx| :: idx[i] < n && Good(hash, ps, replies, idx[i])
  {
    if n == 0 then [] else
      GoodOnes(hash, ps, replies, n - 1) + if Good(hash, ps, replies, n - 1) then [n - 1] else []
  }

  /** The good replies among the first `n`. */
  function GoodValues(hash: string -> string, ps: seq<Placed>, replies: seq<Option<string>>, n: nat): seq<string>
    requires n <= |ps| == |replies|
  {
    if n == 0 then [] else
      GoodValues(hash, ps, replies, n - 1) + if Good(hash, ps, replies, n - 1) then [replies[n - 1].value] else []
  }

  lemma {:induction false} GoodValuesAre(hash: string -> string, ps: seq<Placed>, replies: seq<Option<string>>, n: nat, k: nat)
    requires n <= |ps| == |replies|
    ensures |GoodValues(hash, ps, replies, n)| == |GoodOnes(hash, ps, replies, n)|
    ensures k < |GoodOnes(hash, ps, replies, n)| ==>
              GoodValues(hash, ps, replies, n)[k] == replies[GoodOnes(hash, ps, replies, n)[k]].value
  {
    if n > 0 {
      GoodValuesAre(hash, ps, replies, n - 1, k);
    }
  }

  lemma {:induction false} GoodValuesPrefix(hash: string -> string, ps: seq<Placed>, replies: seq<Option<string>>, n: nat, m: nat)
    requires n <= m <= |ps| == |replies|
    ensures GoodValues(hash, ps, replies, n) <= GoodValues(hash, ps, replies, m)
  {
    if n < m {
      GoodValuesPrefix(hash, ps, replies, n, m - 1);
    }
  }

  /** The first k good replies decoded, or the empty string when there are fewer. */
  function Decoded(c: Code, hash: string -> string, ps: seq<Placed>, replies: seq<Option<string>>): string
    requires |ps| == |replies|
  {
    var good := GoodValues(hash, ps, replies, |ps|);
    if |good| < c.k then "" else c.decode(good[..c.k])
  }

  lemma {:induction false} FirstGood(hash: string -> string, ps: seq<Placed>, replies: seq<Option<string>>, n: nat, k: nat)
    requires n <= |ps| == |replies| && |GoodValues(hash, ps, replies, n)| == k
    ensures |GoodValues(hash, ps, replies, |ps|)| >= k
    ensures GoodValues(hash, ps, replies, |ps|)[..k] == GoodValues(hash, ps, replies, n)
  {
    GoodValuesPrefix(hash, ps, replies, n, |ps|);
  }

  lemma {:induction false} SlotFilled(datas: seq<string>, succ: nat, value: string)
    requires succ < |datas|
    ensures datas[succ := value][..succ + 1] == datas[..succ] + [value]
  {
  }

  /** decode_one: `replies[i]` is what the datanode of fragment `i` sends, if anything. A fetch that
      throws leaves the slot counter where it was. */
  method DecodeOne(c: Code, hash: string -> string, ps: seq<Placed>, replies: seq<Option<string>>) returns (block: string)
    requires c.k >= 1 && |ps| == |replies|
    ensures block == Decoded(c, hash, ps, replies)
  {
    var succ := 0;
    var datas: seq<string> := seq(c.k, _ => "");
    for n := 0 to |ps|
      invariant 0 <= succ < c.k == |datas| && datas[..succ] == GoodValues(hash, ps, replies, n)
    {
      if replies[n].Some? && hash(replies[n].value) == ps[n].hash {
        SlotFilled(datas, succ, replies[n].value);
        datas := datas[succ := replies[n].value];
        succ := succ + 1;
        if succ == c.k {
          FirstGood(hash, ps, replies, n + 1, c.k);
          assert datas[..succ] == datas;
          return c.decode(datas);
        }
      }
    }
    return "";
  }

  lemma {:induction false} GoodOnesAre(hash: string -> string, ps: seq<Placed>, replies: seq<Option<string>>, n: nat, i: nat)
    requires n <= |ps| == |replies|
    ensures i in GoodOnes(hash, ps, replies, n) <==> i < n && Good(hash, ps, replies, i)
  {
    if n > 0 {
      GoodOnesAre(hash, ps, replies, n - 1, i);
    }
  }

  /** Which replies are decoded: the first k that arrived with the hash they were asked for by, in the order of the list. */
  lemma {:induction false} FirstKAreDecoded(c: Code, hash: string -> string, ps: seq<Placed>, replies: seq<Option<string>>)
    returns (at: seq<nat>, datas: seq<string>)
    requires |ps| == |replies| && |GoodOnes(hash, ps, replies, |ps|)| >= c.k
    ensures Decoded(c, hash, ps, replies) == c.decode(datas) && |at| == |datas| == c.k && Increasing(at)
    ensures forall k | 0 <= k < |at| ::
              at[k] < |ps| && replies[at[k]] == Some(datas[k]) && hash(datas[k]) == ps[at[k]].hash
    ensures forall k, i: nat | 0 <= k < |at| && i < at[k] && replies[i].Some? && hash(replies[i].value) == ps[i].hash :: i in at
  {
    var idx, good := GoodOnes(hash, ps, replies, |ps|), GoodValues(hash, ps, replies, |ps|);
    GoodValuesAre(hash, ps, replies, |ps|, 0);
    at, datas := idx[..c.k], good[..c.k];
    forall k | 0 <= k < |at| ensures at[k] < |ps| && replies[at[k]] == Some(datas[k]) && hash(datas[k]) == ps[at[k]].hash {
      GoodValuesAre(hash, ps, replies, |ps|, k);
      assert Good(hash, ps, replies, idx[k]);
    }
    forall k, i: nat | 0 <= k < |at| && i < at[k] && replies[i].Some? && hash(replies[i].value) == ps[i].hash ensures i in at {
      GoodOnesAre(hash, ps, replies, |ps|, i);
      var m :| 0 <= m < |idx| && idx[m] == i;
      assert m < k && at[m] == i;
    }
  }

  // ----- loss and corruption -----

  /** No reply that differs from its fragment happens to have the fragment's hash. */
  ghost predicate NoCollision(hash: string -> string, frags: seq<string>, replies: seq<Option<string>>) {
    forall i | 0 <= i < |frags| && i < |replies| && replies[i].Some? ::
      hash(replies[i].value) == hash(frags[i]) ==> replies[i].value == frags[i]
  }

  /** The list names the first fragments of the block, in order. */
  ghost predicate Lists(hash: string -> string, frags: seq<string>, ps: seq<Placed>) {
    |ps| <= |frags| && forall i | 0 <= i < |ps| :: ps[i].hash == hash(frags[i])
  }

  /** Whatever is lost or altered on the way: the block comes back whole when at least k stored
      fragments are returned intact, and otherwise the result is empty. */
  lemma {:induction false} DecodedIsTheBlock(c: Code, hash: string -> string, block: string, ps: seq<Placed>, replies: seq<Option<string>>)
    requires AnyKDecode(c) && Lists(hash, c.encode(block), ps) && |ps| == |replies|
    requires NoCollision(hash, c.encode(block), replies)
    ensures Decoded(c, hash, ps, replies) == if Intact(c.encode(block), replies, |ps|) >= c.k then block else ""
  {
    var frags := c.encode(block);
    var idx, good := GoodOnes(hash, ps, replies, |ps|), GoodValues(hash, ps, replies, |ps|);
    IntactAreGood(hash, frags, ps, replies, |ps|);
    GoodValuesAre(hash, ps, replies, |ps|, 0);
    if |idx| >= c.k {
      var first := idx[..c.k];
      assert Increasing(first);
      forall i | 0 <= i < |first| ensures first[i] < |frags| && good[i] == frags[first[i]] {
        GoodValuesAre(hash, ps, replies, |ps|, i);
        assert Good(hash, ps, replies, idx[i]);
      }
      assert good[..c.k] == Select(frags, first);
    }
  }

  /** How many of the first `n` replies are the fragments that were stored. */
  function Intact(frags: seq<string>, replies: seq<Option<string>>, n: nat): nat
    requires n <= |frags| && n <= |replies|
  {
    if n == 0 then 0 else Intact(frags, replies, n - 1) + if replies[n - 1] == Some(frags[n - 1]) then 1 else 0
  }

  lemma {:induction false} IntactAreGood(hash: string -> string, frags: seq<string>, ps: seq<Placed>, replies: seq<Option<string>>, n: nat)
    requires Lists(hash, frags, ps) && n <= |ps| == |replies| && NoCollision(hash, frags, replies)
    ensures |GoodOnes(hash, ps, replies, n)| == Intact(frags, replies, n)
  {
    if n > 0 {
      IntactAreGood(hash, frags, ps, replies, n - 1);
      assert replies[n - 1].Some? ==>
          (hash(replies[n - 1].value) == hash(frags[n - 1]) <==> replies[n - 1].value == frags[n - 1]);
    }
  }

  // ----- from upload to download, through the text in the inode -----

  ghost predicate PlainHashes(hash: string -> string) {
    forall x :: Free(hash(x), ',') && Free(hash(x), '|')
  }

  lemma {:induction false} StoredIsListed(frags: seq<string>, nodes: seq<string>, hash: string -> string, outcomes: seq<bool>)
    requires nodes != [] && Count(outcomes) <= |frags|
    ensures Lists(hash, frags, Stored(frags, nodes, hash, outcomes))
  {
    forall i | 0 <= i < Count(outcomes) ensures Stored(frags, nodes, hash, outcomes)[i].hash == hash(frags[i]) {
      StoredInOrder(frags, nodes, hash, outcomes, i);
    }
  }

  lemma {:induction false} StoredIsStorable(frags: seq<string>, nodes: seq<string>, hash: string -> string, outcomes: seq<bool>)
    requires nodes != [] && Count(outcomes) <= |frags| && PlainHashes(hash)
    requires forall v | 0 <= v < |nodes| :: Canonical(nodes[v])
    ensures AllStorable(Stored(frags, nodes, hash, outcomes))
  {
    forall i | 0 <= i < Count(outcomes) ensures Storable(Stored(frags, nodes, hash, outcomes)[i]) {
      StoredInOrder(frags, nodes, hash, outcomes, i);
    }
  }

  /** What encode_one writes into the inode, decode_one reads back to the block, however the uploads
      went and whichever fetches fail, as long as k stored fragments are returned intact. */
  lemma {:induction false} BlockSurvives(c: Code, hash: string -> string, block: string, nodes: seq<string>, outcomes: seq<bool>, replies: seq<Option<string>>)
    requires AnyKDecode(c) && PlainHashes(hash) && NoCollision(hash, c.encode(block), replies)
    requires nodes != [] && forall v | 0 <= v < |nodes| :: Canonical(nodes[v])
    requires 0 < Count(outcomes) <= |c.encode(block)| && |replies| == Count(outcomes)
    ensures var text := EncodeOneSub(Stored(c.encode(block), nodes, hash, outcomes));
            && text.Ok?
            && |DecodeOneSub(text.value)| == |replies|
            && Decoded(c, hash, DecodeOneSub(text.value), replies) ==
               if Intact(c.encode(block), replies, |replies|) >= c.k then block else ""
  {
    var frags := c.encode(block);
    var ps := Stored(frags, nodes, hash, outcomes);
    StoredIsListed(frags, nodes, hash, outcomes);
    StoredIsStorable(frags, nodes, hash, outcomes);
    FragmentListRoundTrip(ps);
    DecodedIsTheBlock(c, hash, block, ps, replies);
  }
}
