/** The loop of encode_one that stores a block's fragments: round robin over the online
    datanodes, a failed fragment tried again on the next node. The loop need not end, so it
    is followed over any finite sequence of upload outcomes. */
module Placement {
  import opened StorageText
  import opened FragmentText
  import opened Arithmetic

  datatype Status = Running | Finished | AllFailed

  /** How many of the uploads succeeded. */
  function Count(outcomes: seq<bool>): (c: nat)
    ensures c <= |outcomes|
  {
    if outcomes == [] then 0
    else Count(outcomes[..|outcomes| - 1]) + if outcomes[|outcomes| - 1] then 1 else 0
  }

  /** The attempts that succeeded, in order. */
  function Successes(outcomes: seq<bool>): (at: seq<nat>)
    ensures |at| == Count(outcomes)
    ensures forall j | 0 <= j < |at| :: at[j] < |outcomes| && outcomes[at[j]]
    ensures forall i, j | 0 <= i < j < |at| :: at[i] < at[j]
  {
    if outcomes == [] then []
    else
      var init := outcomes[..|outcomes| - 1];
      Successes(init) + if outcomes[|outcomes| - 1] then [|init|] else []
  }

  /** Whose turn attempt `a` is: 0, 1, ..., n - 1, 0, 1, ... */
  function Turn(a: nat, n: nat): (v: nat)
    requires 0 < n
    ensures v < n && v <= a
  {
    if a == 0 || Turn(a - 1, n) + 1 == n then 0 else Turn(a - 1, n) + 1
  }

  lemma {:induction false} TurnIsRemainder(a: nat, n: nat)
    requires 0 < n
    ensures Turn(a, n) == a % n
  {
    if a > 0 {
      TurnIsRemainder(a - 1, n);
      ModStep(a - 1, n);
    }
  }

  /** Attempt `a` ended a round in which all `n` nodes failed, with too little stored to be safe. */
  predicate Stops(t: StorageType, n: nat, outcomes: seq<bool>, a: nat)
    requires 0 < n && a <= |outcomes|
  {
    a >= n && Turn(a, n) == 0 && !t.Check(Count(outcomes[..a])) && forall j | a - n <= j < a :: !outcomes[j]
  }

  /** The `a`th attempt ended a round of `n`, and every attempt of the round failed. */
  predicate RoundFailed(outcomes: seq<bool>, n: nat, a: nat)
    requires 0 < n
  {
    0 < a <= |outcomes| && a % n == 0 && forall j | a - n <= j < a :: 0 <= j && !outcomes[j]
  }

  /** The give-up test in numbers: at most k fragments stored for Reed-Solomon, none for replication. */
  lemma {:induction false} StopsIff(t: StorageType, n: nat, outcomes: seq<bool>, a: nat)
    requires 0 < n && a <= |outcomes|
    ensures Stops(t, n, outcomes, a) <==> RoundFailed(outcomes, n, a) && Count(outcomes[..a]) <= if t.RS? then t.k else 0
  {
    TurnIsRemainder(a, n);
    if 0 < a && a % n == 0 {
      var r := RoundsIn(a, n);
    }
  }

  lemma {:induction false} RoundsIn(a: nat, n: nat) returns (r: nat)
    requires 0 < n && 0 < a && a % n == 0
    ensures r > 0 && a == r * n && a >= n
  {
    r := a / n;
    assert a == r * n;
    MultipleBounds(r, n);
  }

  /** Where the loop ends, seen from outside: no earlier round gave it reason to give up. */
  lemma {:induction false} PlaceEnds(t: StorageType, n: nat, outcomes: seq<bool>, total: nat)
    requires 0 < n
    ensures var end := End(t, n, outcomes, total, 0);
            && end <= |outcomes|
            && (forall b: nat | b < end && RoundFailed(outcomes, n, b) :: Count(outcomes[..b]) > if t.RS? then t.k else 0)
            && (Stops(t, n, outcomes, end) <==> RoundFailed(outcomes, n, end) && Count(outcomes[..end]) <= if t.RS? then t.k else 0)
  {
    var end := End(t, n, outcomes, total, 0);
    EndIsFirst(t, n, outcomes, total, 0);
    StopsIff(t, n, outcomes, end);
    forall b: nat | b < end && RoundFailed(outcomes, n, b) ensures Count(outcomes[..b]) > if t.RS? then t.k else 0 {
      assert Going(t, n, outcomes, total, b);
      StopsIff(t, n, outcomes, b);
    }
  }

  // ----- counting -----

  lemma {:induction false} CountStep(outcomes: seq<bool>, a: nat)
    requires a < |outcomes|
    ensures Count(outcomes[..a + 1]) == Count(outcomes[..a]) + if outcomes[a] then 1 else 0
    ensures Successes(outcomes[..a + 1]) == Successes(outcomes[..a]) + if outcomes[a] then [a] else []
  {
    assert outcomes[..a + 1][..a] == outcomes[..a];
  }

  lemma {:induction false} CountBetween(outcomes: seq<bool>, a: nat, b: nat)
    requires a <= b <= |outcomes|
    ensures 0 <= Count(outcomes[..b]) - Count(outcomes[..a]) <= b - a
    ensures Count(outcomes[..b]) == Count(outcomes[..a]) <==> forall j | a <= j < b :: !outcomes[j]
  {
    if a < b {
      CountBetween(outcomes, a, b - 1);
      CountStep(outcomes, b - 1);
    }
  }

  lemma {:induction false} CheckIsMonotone(t: StorageType, x: int, y: int)
    requires x <= y && t.Check(x)
    ensures t.Check(y)
  {
  }

  // ----- the loop -----

  /** The index after `v`, wrapping around. */
  function Advance(v: nat, n: nat): (w: nat)
    requires v < n
    ensures w == if v + 1 == n then 0 else v + 1
  {
    (v + 1) % n
  }

  /** What the uploads leave stored: each success takes the next fragment, each attempt goes to the node whose turn it is. */
  function Stored(frags: seq<string>, nodes: seq<string>, hash: string -> string, outcomes: seq<bool>): (ps: seq<Placed>)
    requires nodes != [] && Count(outcomes) <= |frags|
    ensures |ps| == Count(outcomes)
  {
    if outcomes == [] then [] else
      var init := outcomes[..|outcomes| - 1];
      Stored(frags, nodes, hash, init) +
      if outcomes[|outcomes| - 1] then [Placed(nodes[Turn(|init|, |nodes|)], hash(frags[Count(init)]))] else []
  }

  lemma {:induction false} StoredStep(frags: seq<string>, nodes: seq<string>, hash: string -> string, outcomes: seq<bool>, a: nat)
    requires nodes != [] && a < |outcomes| && Count(outcomes[..a]) < |frags|
    ensures Count(outcomes[..a + 1]) <= |frags|
    ensures Stored(frags, nodes, hash, outcomes[..a + 1]) == Stored(frags, nodes, hash, outcomes[..a]) +
              if outcomes[a] then [Placed(nodes[Turn(a, |nodes|)], hash(frags[Count(outcomes[..a])]))] else []
  {
    CountStep(outcomes, a);
    assert outcomes[..a + 1][..a] == outcomes[..a];
  }

  /** After `a` attempts the loop neither gave up nor has everything stored. */
  predicate Going(t: StorageType, n: nat, outcomes: seq<bool>, total: nat, a: nat)
    requires 0 < n && a <= |outcomes|
  {
    !Stops(t, n, outcomes, a) && Count(outcomes[..a]) < total
  }

  /** Where the loop is when it ends, or the outcomes do: the first attempt count that is not going. */
  function End(t: StorageType, n: nat, outcomes: seq<bool>, total: nat, a: nat): nat
    requires 0 < n && a <= |outcomes|
    decreases |outcomes| - a
  {
    if a == |outcomes| || !Going(t, n, outcomes, total, a) then a else End(t, n, outcomes, total, a + 1)
  }

  lemma {:induction false} EndIsFirst(t: StorageType, n: nat, outcomes: seq<bool>, total: nat, a: nat)
    requires 0 < n && a <= |outcomes|
    ensures a <= End(t, n, outcomes, total, a) <= |outcomes|
    ensures forall b | a <= b < End(t, n, outcomes, total, a) :: Going(t, n, outcomes, total, b)
    ensures End(t, n, outcomes, total, a) < |outcomes| ==> !Going(t, n, outcomes, total, End(t, n, outcomes, total, a))
    decreases |outcomes| - a
  {
    if a < |outcomes| && Going(t, n, outcomes, total, a) {
      EndIsFirst(t, n, outcomes, total, a + 1);
    }
  }

  /** encode_one after the block was cut into `frags`: `outcomes[a]` tells whether the upload of
      attempt `a` succeeds. `Running` means the outcomes ran out before the loop did. It gives up at the first
      round in which every node failed while at most k fragments (Reed-Solomon) or none (replication) are stored. */
  method Place(t: StorageType, frags: seq<string>, nodes: seq<string>, hash: string -> string, outcomes: seq<bool>)
    returns (placed: seq<Placed>, attempts: nat, status: Status)
    requires nodes != []
    ensures attempts <= |outcomes| && Count(outcomes[..attempts]) <= |frags|
    ensures placed == Stored(frags, nodes, hash, outcomes[..attempts])
    ensures status == Finished <==> |placed| == |frags|
    ensures status == Running ==> attempts == |outcomes|
    ensures attempts == End(t, |nodes|, outcomes, |frags|, 0)
    ensures status == AllFailed <==>
              && |placed| < |frags|
              && RoundFailed(outcomes, |nodes|, attempts)
              && |placed| <= (if t.RS? then t.k else 0)
    ensures forall b: nat | b < attempts && RoundFailed(outcomes, |nodes|, b) ::
              Count(outcomes[..b]) > if t.RS? then t.k else 0
  {
    placed, attempts, status := PlaceLoop(t, frags, nodes, hash, outcomes);
    PlaceEnds(t, |nodes|, outcomes, |frags|);
  }

  /** Its loop. */
  method PlaceLoop(t: StorageType, frags: seq<string>, nodes: seq<string>, hash: string -> string, outcomes: seq<bool>)
    returns (placed: seq<Placed>, attempts: nat, status: Status)
    requires nodes != []
    ensures attempts <= |outcomes| && Count(outcomes[..attempts]) <= |frags|
    ensures placed == Stored(frags, nodes, hash, outcomes[..attempts])
    ensures status == Finished <==> |placed| == |frags|
    ensures status == AllFailed <==> Stops(t, |nodes|, outcomes, attempts) && |placed| < |frags|
    ensures status == Running ==> attempts == |outcomes|
    ensures attempts == End(t, |nodes|, outcomes, |frags|, 0)
  {
    var n := |nodes|;
    placed, attempts := [], 0;
    var nodeIndex: nat, succ, failCount := 0, 0, 0;
    var i := 0;
    while i < |frags| && attempts < |outcomes|
      invariant attempts <= |outcomes| && i == succ == Count(outcomes[..attempts]) <= |frags|
      invariant placed == Stored(frags, nodes, hash, outcomes[..attempts])
      invariant Midway(t, n, outcomes, |frags|, attempts, nodeIndex, failCount)
      decreases |outcomes| - attempts
    {
      CountStep(outcomes, attempts);
      StoredStep(frags, nodes, hash, outcomes, attempts);
      MidwayStep(t, n, outcomes, |frags|, attempts, nodeIndex, failCount);
      if outcomes[attempts] {
        placed := placed + [Placed(nodes[nodeIndex], hash(frags[i]))];
        succ := succ + 1;
      } else {
        i := i - 1;
        failCount := failCount + 1;
      }
      attempts := attempts + 1;
      nodeIndex := Advance(nodeIndex, n);
      if nodeIndex == 0 && !t.Check(succ) {
        if failCount == n {
          status := AllFailed;
          return;
        }
        failCount := 0;
      }
      i := i + 1;
    }
    status := if i < |frags| then Running else Finished;
  }

  /** After `a` attempts that did not end the loop: whose turn it is, and what the failure counter holds. */
  ghost predicate Midway(t: StorageType, n: nat, outcomes: seq<bool>, total: nat, a: nat, nodeIndex: nat, failCount: int)
    requires 0 < n && a <= |outcomes|
  {
    && nodeIndex == Turn(a, n) < n
    && FailsTracked(t, n, outcomes, a, failCount)
    && End(t, n, outcomes, total, 0) == End(t, n, outcomes, total, a)
    && !Stops(t, n, outcomes, a)
  }

  lemma {:induction false} MidwayStep(t: StorageType, n: nat, outcomes: seq<bool>, total: nat, a: nat, nodeIndex: nat, failCount: int)
    requires 0 < n && a < |outcomes| && Midway(t, n, outcomes, total, a, nodeIndex, failCount) && Count(outcomes[..a]) < total
    ensures var fails, next := failCount + if outcomes[a] then 0 else 1, Advance(nodeIndex, n);
            && next == Turn(a + 1, n) && End(t, n, outcomes, total, 0) == End(t, n, outcomes, total, a + 1)
            && if next == 0 && !t.Check(Count(outcomes[..a + 1])) then
                 (fails == n <==> Stops(t, n, outcomes, a + 1)) &&
                 (fails != n ==> Midway(t, n, outcomes, total, a + 1, next, 0))
               else Midway(t, n, outcomes, total, a + 1, next, fails)
  {
    assert Going(t, n, outcomes, total, a);
    FailsStep(t, n, outcomes, a, failCount);
  }

  /** Until enough is stored, the counter holds the failures of the current round. */
  ghost predicate FailsTracked(t: StorageType, n: nat, outcomes: seq<bool>, a: nat, failCount: int)
    requires 0 < n && a <= |outcomes|
  {
    var round := a - Turn(a, n);
    (!t.Check(Count(outcomes[..round])) ==>
      failCount == Turn(a, n) - (Count(outcomes[..a]) - Count(outcomes[..round])))
  }

  lemma {:induction false} FailsStep(t: StorageType, n: nat, outcomes: seq<bool>, a: nat, failCount: int)
    requires 0 < n && a < |outcomes| && FailsTracked(t, n, outcomes, a, failCount)
    ensures var fails := failCount + if outcomes[a] then 0 else 1;
            if Turn(a + 1, n) == 0 && !t.Check(Count(outcomes[..a + 1])) then
              (fails == n <==> Stops(t, n, outcomes, a + 1)) && FailsTracked(t, n, outcomes, a + 1, 0)
            else
              !Stops(t, n, outcomes, a + 1) && FailsTracked(t, n, outcomes, a + 1, fails)
  {
    CountStep(outcomes, a);
    if Turn(a + 1, n) == 0 {
      RoundEnd(t, n, outcomes, a - Turn(a, n), a + 1);
    }
  }

  /** The stored fragments are 0, 1, 2, ... in order, each once. */
  lemma {:induction false} StoredInOrder(frags: seq<string>, nodes: seq<string>, hash: string -> string, outcomes: seq<bool>, j: nat)
    requires nodes != [] && j < Count(outcomes) <= |frags|
    ensures Stored(frags, nodes, hash, outcomes)[j] ==
            Placed(nodes[Successes(outcomes)[j] % |nodes|], hash(frags[j]))
  {
    TurnIsRemainder(Successes(outcomes)[j], |nodes|);
    var init := outcomes[..|outcomes| - 1];
    if j < Count(init) {
      StoredInOrder(frags, nodes, hash, init, j);
    }
  }

  lemma {:induction false} RoundEnd(t: StorageType, n: nat, outcomes: seq<bool>, round: nat, a: nat)
    requires 0 < n && a == round + n <= |outcomes| && Turn(a, n) == 0
    ensures Stops(t, n, outcomes, a) <==>
              !t.Check(Count(outcomes[..a])) && Count(outcomes[..a]) == Count(outcomes[..round])
    ensures !t.Check(Count(outcomes[..a])) ==> !t.Check(Count(outcomes[..round]))
  {
    CountBetween(outcomes, round, a);
  }

  // ----- progress -----

  /** The fewest stored fragments that count as safe. */
  function Threshold(t: StorageType): int { if t.RS? then t.k + 1 else 1 }

  lemma {:induction false} EveryRoundAddsOne(t: StorageType, n: nat, outcomes: seq<bool>, r: nat)
    requires 0 < n && r * n <= |outcomes|
    requires forall a | 0 <= a <= r * n :: !Stops(t, n, outcomes, a)
    ensures Count(outcomes[..r * n]) >= r || t.Check(Count(outcomes[..r * n]))
  {
    if r > 0 {
      assert (r - 1) * n == r * n - n;
      EveryRoundAddsOne(t, n, outcomes, r - 1);
      DivOf(r, n, 0);
      TurnIsRemainder(r * n, n);
      RoundEnd(t, n, outcomes, (r - 1) * n, r * n);
      CountBetween(outcomes, (r - 1) * n, r * n);
    }
  }

  /** A loop that has not stopped on failures is safe after as many rounds as fragments are needed. */
  lemma {:induction false} SafeWithinRounds(t: StorageType, n: nat, outcomes: seq<bool>, a: nat)
    requires 0 < n && 0 <= Threshold(t) && Threshold(t) * n <= a <= |outcomes|
    requires forall b | 0 <= b <= a :: !Stops(t, n, outcomes, b)
    ensures t.Check(Count(outcomes[..a]))
  {
    var c := Threshold(t);
    EveryRoundAddsOne(t, n, outcomes, c);
    CountBetween(outcomes, c * n, a);
    CheckIsMonotone(t, if t.Check(Count(outcomes[..c * n])) then Count(outcomes[..c * n]) else c, Count(outcomes[..a]));
  }

  /** Once enough is stored, the loop never gives up: only uploads that succeed can end it. */
  lemma {:induction false} NeverStopsOnceSafe(t: StorageType, n: nat, outcomes: seq<bool>, a: nat, b: nat)
    requires 0 < n && a <= b <= |outcomes| && t.Check(Count(outcomes[..a]))
    ensures !Stops(t, n, outcomes, b)
  {
    CountBetween(outcomes, a, b);
    CheckIsMonotone(t, Count(outcomes[..a]), Count(outcomes[..b]));
  }

  /** With one success in every round, `total` fragments are stored after at most `total` rounds. */
  lemma {:induction false} OneSuccessPerRoundFinishes(n: nat, outcomes: seq<bool>, total: nat)
    requires 0 < n && total * n <= |outcomes|
    requires OnePerRound(n, outcomes, total)
    ensures Count(outcomes[..total * n]) >= total
  {
    if total > 0 {
      assert (total - 1) * n == total * n - n;
      OneSuccessPerRoundFinishes(n, outcomes, total - 1);
      CountBetween(outcomes, (total - 1) * n, total * n);
      var r: nat := total - 1;
      assert exists j :: r * n <= j < r * n + n && j < |outcomes| && outcomes[j];
    }
  }

  /** Some upload of each of the first `total` rounds goes through. */
  ghost predicate OnePerRound(n: nat, outcomes: seq<bool>, total: nat) {
    forall r: nat | r < total :: exists j :: r * n <= j < r * n + n && j < |outcomes| && outcomes[j]
  }

  lemma {:induction false} NoRoundFails(t: StorageType, n: nat, outcomes: seq<bool>, total: nat, a: nat)
    requires 0 < n && OnePerRound(n, outcomes, total) && a <= total * n && a <= |outcomes|
    ensures !Stops(t, n, outcomes, a)
  {
    if a >= n && Turn(a, n) == 0 {
      TurnIsRemainder(a, n);
      var r := RoundEnding(a, n);
      RoundBefore(r, total, n);
      var j :| r * n <= j < r * n + n && j < |outcomes| && outcomes[j];
    }
  }

  lemma {:induction false} RoundEnding(a: nat, n: nat) returns (r: nat)
    requires 0 < n <= a && a % n == 0
    ensures a == r * n + n
  {
    assert a == a / n * n;
    MultipleBounds(a / n, n);
    r := a / n - 1;
    MulSucc(r, n);
  }

  lemma {:induction false} RoundBefore(r: int, total: nat, n: nat)
    requires 0 < n && r * n + n <= total * n
    ensures r < total
  {
    MultipleBounds(r - total, n);
    assert (r - total) * n == r * n - total * n;
  }

  /** With one success in every round the loop never gives up and has stored everything within as many
      rounds as there are fragments. */
  lemma {:induction false} FinishesWithinRounds(t: StorageType, n: nat, outcomes: seq<bool>, total: nat)
    requires 0 < n && total * n <= |outcomes| && OnePerRound(n, outcomes, total)
    ensures End(t, n, outcomes, total, 0) <= total * n
    ensures Count(outcomes[..End(t, n, outcomes, total, 0)]) == total
  {
    var a := End(t, n, outcomes, total, 0);
    EndIsFirst(t, n, outcomes, total, 0);
    OneSuccessPerRoundFinishes(n, outcomes, total);
    assert !Going(t, n, outcomes, total, total * n);
    assert a <= total * n;
    NoRoundFails(t, n, outcomes, total, a);
    if a > 0 {
      assert Going(t, n, outcomes, total, a - 1);
      CountStep(outcomes, a - 1);
    }
  }

  /** encode_one when one upload per round goes through: all fragments are stored. */
  method PlaceAll(t: StorageType, frags: seq<string>, nodes: seq<string>, hash: string -> string, outcomes: seq<bool>)
    returns (placed: seq<Placed>, attempts: nat)
    requires nodes != [] && |frags| * |nodes| <= |outcomes| && OnePerRound(|nodes|, outcomes, |frags|)
    ensures |placed| == |frags| && attempts <= |frags| * |nodes|
    ensures Count(outcomes[..attempts]) == |frags| && placed == Stored(frags, nodes, hash, outcomes[..attempts])
  {
    var status;
    placed, attempts, status := Place(t, frags, nodes, hash, outcomes);
    FinishesWithinRounds(t, |nodes|, outcomes, |frags|);
    assert status == Finished;
  }

  /** How many of the first `a` attempts go to node `v`. */
  function Load(n: nat, v: nat, a: nat): nat
    requires 0 < n
  {
    if a == 0 then 0 else Load(n, v, a - 1) + if (a - 1) % n == v then 1 else 0
  }

  /** The attempts are spread evenly: a node gets the whole rounds and at most one more. */
  lemma {:induction false} LoadIsEven(n: nat, v: nat, a: nat)
    requires v < n
    ensures Load(n, v, a) == a / n + if v < a % n then 1 else 0
  {
    if a > 0 {
      LoadIsEven(n, v, a - 1);
      ModStep(a - 1, n);
    } else {
      DivOf(0, n, 0);
    }
  }
}
