/** The leader's periodic look at the namenodes: each is scanned until it answers, four times at most. */
module HealthScan {
  import opened NodeText

  const SIZE_T_LIMIT: nat := 0x1_0000_0000_0000_0000

  /** size_t: unsigned, and it wraps. */
  type size_t = x: int | 0 <= x < 0x1_0000_0000_0000_0000

  function Increment(i: size_t): size_t { if i == SIZE_T_LIMIT - 1 then 0 else i + 1 }

  function Decrement(i: size_t): size_t { if i == 0 then SIZE_T_LIMIT - 1 else i - 1 }

  /** Scanning the same index again: stepping back from 0 wraps to the largest value, and the next step wraps to 0. */
  lemma {:induction false} StepBackAndForth(i: size_t)
    ensures Increment(Decrement(i)) == i
    ensures i == 0 ==> Decrement(i) == SIZE_T_LIMIT - 1
  {
  }

  datatype Verdict = Healthy | Lost(index: nat)

  /** The first scan from `t` on that is answered; `answers[t]` is the outcome of scan `t`. */
  function FirstAnswer(answers: seq<bool>, t: nat): nat
    decreases |answers| - t
  {
    if t >= |answers| || answers[t] then t else FirstAnswer(answers, t + 1)
  }

  /** When node `i` is scanned first, if every node before it is scanned until it answers. */
  function Begin(answers: seq<bool>, i: nat): nat {
    if i == 0 then 0 else FirstAnswer(answers, Begin(answers, i - 1)) + 1
  }

  /** Node `i` answers one of its first four scans. */
  predicate InTime(answers: seq<bool>, i: nat) {
    FirstAnswer(answers, Begin(answers, i)) <= Begin(answers, i) + 3
  }

  lemma {:induction false} FirstAnswerIs(answers: seq<bool>, t: nat)
    ensures FirstAnswer(answers, t) >= t
    ensures forall u | t <= u < FirstAnswer(answers, t) :: u < |answers| && !answers[u]
    ensures FirstAnswer(answers, t) < |answers| ==> answers[FirstAnswer(answers, t)]
    decreases |answers| - t
  {
    if !(t >= |answers| || answers[t]) {
      FirstAnswerIs(answers, t + 1);
    }
  }

  lemma {:induction false} FirstAnswerAt(answers: seq<bool>, t: nat, u: nat)
    requires t <= u < |answers| && forall v | t <= v < u :: !answers[v]
    ensures answers[u] ==> FirstAnswer(answers, t) == u
    ensures !answers[u] ==> FirstAnswer(answers, t) > u
    decreases u - t
  {
    if t < u {
      FirstAnswerAt(answers, t + 1, u);
    } else if !answers[u] {
      FirstAnswerIs(answers, u + 1);
    }
  }

  /** As long as the nodes answer in time, each takes four scans at most. */
  lemma {:induction false} BeginBound(answers: seq<bool>, i: nat)
    requires forall k | 0 <= k < i :: InTime(answers, k)
    ensures Begin(answers, i) <= 4 * i
  {
    if i > 0 {
      BeginBound(answers, i - 1);
      assert InTime(answers, i - 1);
    }
  }

  /** A node that is not in time was offline in four scans on end. */
  lemma {:induction false} LateIsOffline(answers: seq<bool>, i: nat)
    requires !InTime(answers, i)
    ensures forall u | Begin(answers, i) <= u < Begin(answers, i) + 4 :: u < |answers| && !answers[u]
  {
    FirstAnswerIs(answers, Begin(answers, i));
  }

  function WithStatus(ns: seq<Node>, i: nat, answered: bool): (r: seq<Node>)
    requires i < |ns|
    ensures |r| == |ns|
  {
    ns[i := ns[i].(status := if answered then Online else Offline)]
  }

  /** What is known of the nodes once the first `i` answered. */
  ghost predicate Seen(ns: seq<Node>, scanned: seq<Node>, i: nat) {
    && |scanned| == |ns|
    && (forall k | 0 <= k < i && k < |ns| :: scanned[k] == ns[k].(status := Online))
    && (forall k | i < k < |ns| :: scanned[k] == ns[k])
    && (i < |ns| ==> scanned[i].ip == ns[i].ip && scanned[i].port == ns[i].port)
  }

  /** The timer's scan loop: it ends normally if and only if every node answers in time, with every node's
      last scan answered; otherwise it throws for the first node that was offline four times on end. */
  method ScanAll(ns: seq<Node>, answers: seq<bool>) returns (verdict: Verdict, scanned: seq<Node>, scans: nat)
    requires |ns| < SIZE_T_LIMIT && 4 * |ns| <= |answers|
    ensures scans <= 4 * |ns|
    ensures verdict == Healthy <==> forall i | 0 <= i < |ns| :: InTime(answers, i)
    ensures verdict == Healthy ==> scans == Begin(answers, |ns|) && Seen(ns, scanned, |ns|)
    ensures verdict.Lost? ==>
              && verdict.index < |ns| && !InTime(answers, verdict.index) && (forall k | 0 <= k < verdict.index :: InTime(answers, k))
              && scans == Begin(answers, verdict.index) + 4
              && Seen(ns, scanned, verdict.index) && scanned[verdict.index].status == Offline
  {
    scanned, scans := ns, 0;
    var retryCount := 0;
    var i: size_t := 0;
    while i < |scanned|
      invariant i <= |ns| && 0 <= retryCount <= 3 && Seen(ns, scanned, i)
      invariant Scanning(answers, i, retryCount, scans) && (i == |ns| ==> retryCount == 0)
      decreases |ns| - i, 3 - retryCount
    {
      ScanStep(answers, i, retryCount, scans);
      SeenStep(ns, scanned, i, answers[scans]);
      var online := answers[scans];
      scanned := WithStatus(scanned, i, online);
      scans := scans + 1;
      if scanned[i].status == Offline {
        if retryCount >= 3 {
          return Lost(i), scanned, scans;
        }
        StepBackAndForth(i);
        i := Decrement(i);
        retryCount := retryCount + 1;
        i := Increment(i);
        continue;
      }
      retryCount := 0;
      i := Increment(i);
    }
    BeginBound(answers, |ns|);
    return Healthy, scanned, scans;
  }

  /** Every node before `i` answered in time, and node `i` was offline in its first `retries` scans. */
  ghost predicate Scanning(answers: seq<bool>, i: nat, retries: nat, scans: nat) {
    && (forall k | 0 <= k < i :: InTime(answers, k))
    && scans == Begin(answers, i) + retries
    && (forall u | Begin(answers, i) <= u < scans :: u < |answers| && !answers[u])
  }

  lemma {:induction false} ScanStep(answers: seq<bool>, i: nat, retries: nat, scans: nat)
    requires Scanning(answers, i, retries, scans) && retries <= 3 && 4 * (i + 1) <= |answers|
    ensures scans < |answers| && Begin(answers, i) <= 4 * i
    ensures answers[scans] ==> Scanning(answers, i + 1, 0, scans + 1)
    ensures !answers[scans] && retries < 3 ==> Scanning(answers, i, retries + 1, scans + 1)
    ensures !answers[scans] && retries == 3 ==> !InTime(answers, i)
  {
    BeginBound(answers, i);
    FirstAnswerAt(answers, Begin(answers, i), scans);
  }

  lemma {:induction false} SeenStep(ns: seq<Node>, scanned: seq<Node>, i: nat, answered: bool)
    requires Seen(ns, scanned, i) && i < |ns|
    ensures var now := WithStatus(scanned, i, answered);
            && Seen(ns, now, i) && (answered ==> Seen(ns, now, i + 1))
            && (now[i].status == Offline <==> !answered)
  {
  }
}
