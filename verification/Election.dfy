/** Which nodes become namenodes: what the leader of the datanodes chooses when it takes office. */
module Election {
  import opened Results
  import opened NodeText

  /** The (address, port) pairs that answer a scan. */
  type Endpoints = set<(string, int)>

  datatype ElectionError = NoNodeReady

  // ----- nodes are compared and ordered by address alone -----

  /** std::string's operator<. */
  predicate Before(a: string, b: string) {
    b != "" && (a == "" || a[0] < b[0] || (a[0] == b[0] && Before(a[1..], b[1..])))
  }

  lemma {:induction false} BeforeTotal(a: string, b: string)
    ensures a == b || Before(a, b) || Before(b, a)
  {
    if a != "" && b != "" && a[0] == b[0] {
      BeforeTotal(a[1..], b[1..]);
      assert a == [a[0]] + a[1..] && b == [b[0]] + b[1..];
    }
  }

  lemma {:induction false} BeforeIrreflexive(a: string)
    ensures !Before(a, a)
  {
    if a != "" {
      BeforeIrreflexive(a[1..]);
    }
  }

  lemma {:induction false} BeforeTransitive(a: string, b: string, c: string)
    requires Before(a, b) && Before(b, c)
    ensures Before(a, c)
  {
    if a != "" && a[0] == b[0] == c[0] {
      BeforeTransitive(a[1..], b[1..], c[1..]);
    }
  }

  ghost predicate Sorted(ns: seq<Node>) { forall i, j | 0 <= i < j < |ns| :: !Before(ns[j].ip, ns[i].ip) }

  ghost predicate Distinct(ns: seq<Node>) { forall i, j | 0 <= i < j < |ns| :: ns[i].ip != ns[j].ip }

  ghost predicate Has(ns: seq<Node>, ip: string) { exists i | 0 <= i < |ns| :: ns[i].ip == ip }

  /** std::sort, as insertion; `SortIsDetermined` says that the algorithm does not matter. */
  function Insert(ns: seq<Node>, x: Node): seq<Node> {
    if ns == [] || Before(x.ip, ns[0].ip) then [x] + ns else [ns[0]] + Insert(ns[1..], x)
  }

  function Sort(ns: seq<Node>): seq<Node> {
    if ns == [] then [] else Insert(Sort(ns[1..]), ns[0])
  }

  lemma {:induction false} InsertKeeps(ns: seq<Node>, x: Node)
    ensures multiset(Insert(ns, x)) == multiset(ns) + multiset{x}
  {
    if ns != [] && !Before(x.ip, ns[0].ip) {
      InsertKeeps(ns[1..], x);
      assert ns == [ns[0]] + ns[1..];
    }
  }

  lemma {:induction false} SortKeeps(ns: seq<Node>)
    ensures multiset(Sort(ns)) == multiset(ns)
  {
    if ns != [] {
      SortKeeps(ns[1..]);
      InsertKeeps(Sort(ns[1..]), ns[0]);
      assert ns == [ns[0]] + ns[1..];
    }
  }

  lemma {:induction false} SortSize(ns: seq<Node>)
    ensures |Sort(ns)| == |ns|
  {
    SortKeeps(ns);
    assert |multiset(Sort(ns))| == |Sort(ns)|;
  }

  lemma {:induction false} MembersOf(a: seq<Node>, b: seq<Node>, i: nat) returns (j: nat)
    requires multiset(a) == multiset(b) && i < |a|
    ensures j < |b| && b[j] == a[i]
  {
    assert a[i] in multiset(b);
    j :| 0 <= j < |b| && b[j] == a[i];
  }

  lemma {:induction false} HeadFirst(ns: seq<Node>, x: Node)
    requires Sorted(ns) && (ns == [] || Before(x.ip, ns[0].ip))
    ensures Sorted([x] + ns)
  {
    forall j | 0 <= j < |ns| ensures !Before(ns[j].ip, x.ip) {
      if Before(ns[j].ip, x.ip) {
        BeforeTransitive(ns[j].ip, x.ip, ns[0].ip);
        BeforeIrreflexive(ns[0].ip);
      }
    }
  }

  lemma {:induction false} InsertSorts(ns: seq<Node>, x: Node)
    requires Sorted(ns)
    ensures Sorted(Insert(ns, x))
  {
    if ns == [] || Before(x.ip, ns[0].ip) {
      HeadFirst(ns, x);
    } else {
      InsertSorts(ns[1..], x);
      var rest := Insert(ns[1..], x);
      forall j | 0 <= j < |rest| ensures !Before(rest[j].ip, ns[0].ip) {
        InsertKeeps(ns[1..], x);
        var k := MembersOf(rest, ns[1..] + [x], j);
      }
    }
  }

  lemma {:induction false} SortSorts(ns: seq<Node>)
    ensures Sorted(Sort(ns))
  {
    if ns != [] {
      SortSorts(ns[1..]);
      InsertSorts(Sort(ns[1..]), ns[0]);
    }
  }

  // ----- binary search -----

  /** std::binary_search. */
  method BinarySearch(ns: seq<Node>, x: Node) returns (found: bool)
    requires Sorted(ns)
    ensures found <==> Has(ns, x.ip)
  {
    var lo, hi := 0, |ns|;
    while lo < hi
      invariant 0 <= lo <= hi <= |ns|
      invariant forall k | 0 <= k < lo :: Before(ns[k].ip, x.ip)
      invariant forall k | hi <= k < |ns| :: !Before(ns[k].ip, x.ip)
    {
      var mid := (lo + hi) / 2;
      if Before(ns[mid].ip, x.ip) {
        SmallerBelow(ns, mid, x.ip);
        lo := mid + 1;
      } else {
        GreaterAbove(ns, mid, x.ip);
        hi := mid;
      }
    }
    found := lo < |ns| && !Before(x.ip, ns[lo].ip);
    Located(ns, x.ip, lo);
  }

  lemma {:induction false} SmallerBelow(ns: seq<Node>, mid: nat, ip: string)
    requires Sorted(ns) && mid < |ns| && Before(ns[mid].ip, ip)
    ensures forall k | 0 <= k <= mid :: Before(ns[k].ip, ip)
  {
    forall k | 0 <= k < mid ensures Before(ns[k].ip, ip) {
      BeforeTotal(ns[k].ip, ns[mid].ip);
      if Before(ns[k].ip, ns[mid].ip) {
        BeforeTransitive(ns[k].ip, ns[mid].ip, ip);
      }
    }
  }

  lemma {:induction false} GreaterAbove(ns: seq<Node>, mid: nat, ip: string)
    requires Sorted(ns) && mid < |ns| && !Before(ns[mid].ip, ip)
    ensures forall k | mid <= k < |ns| :: !Before(ns[k].ip, ip)
  {
    forall k | mid < k < |ns| ensures !Before(ns[k].ip, ip) {
      if Before(ns[k].ip, ip) {
        SmallerBelow(ns, k, ip);
      }
    }
  }

  /** Where the search ends, the address is found exactly if it is in the list. */
  lemma {:induction false} Located(ns: seq<Node>, ip: string, lo: nat)
    requires Sorted(ns) && lo <= |ns|
    requires forall k | 0 <= k < lo :: Before(ns[k].ip, ip)
    requires forall k | lo <= k < |ns| :: !Before(ns[k].ip, ip)
    ensures (lo < |ns| && !Before(ip, ns[lo].ip)) <==> Has(ns, ip)
  {
    BeforeIrreflexive(ip);
    if lo < |ns| && !Before(ip, ns[lo].ip) {
      BeforeTotal(ip, ns[lo].ip);
    }
  }

  // ----- the choice -----

  function Scan(online: Endpoints, n: Node): Node {
    n.(status := if (n.ip, n.port) in online then Online else Offline)
  }

  predicate Answers(online: Endpoints, n: Node) { (n.ip, n.port) in online }

  /** Those of the first `j` nodes that answer. */
  function Alive(online: Endpoints, ns: seq<Node>, j: nat): seq<Node>
    requires j <= |ns|
  {
    if j == 0 then [] else
      Alive(online, ns, j - 1) + if Answers(online, ns[j - 1]) then [Scan(online, ns[j - 1])] else []
  }

  /** Those of the first `j` datanodes whose address is not among the chosen ones. */
  ghost function Others(datanodes: seq<Node>, chosen: seq<Node>, j: nat): seq<Node>
    requires j <= |datanodes|
  {
    if j == 0 then [] else
      Others(datanodes, chosen, j - 1) + if Has(chosen, datanodes[j - 1].ip) then [] else [datanodes[j - 1]]
  }

  /** Those of the first `j` nodes that answer, as namenodes. */
  function Promoted(online: Endpoints, ns: seq<Node>, nnPort: int, j: nat): seq<Node>
    requires j <= |ns|
  {
    if j == 0 then [] else
      Promoted(online, ns, nnPort, j - 1) +
      if Answers(online, ns[j - 1]) then [Scan(online, ns[j - 1]).(port := nnPort)] else []
  }

  function Take(ns: seq<Node>, k: int): seq<Node> {
    if k <= 0 then [] else if k >= |ns| then ns else ns[..k]
  }

  function AllAlive(online: Endpoints, ns: seq<Node>): seq<Node> { Alive(online, ns, |ns|) }

  ghost function AllOthers(datanodes: seq<Node>, chosen: seq<Node>): seq<Node> { Others(datanodes, chosen, |datanodes|) }

  function AllPromoted(online: Endpoints, ns: seq<Node>, nnPort: int): seq<Node> { Promoted(online, ns, nnPort, |ns|) }

  /** The present namenodes that answer, in order of address. */
  function Survivors(namenodes: seq<Node>, online: Endpoints): seq<Node> { AllAlive(online, Sort(namenodes)) }

  /** The datanodes that could join them. */
  ghost function Recruits(survivors: seq<Node>, datanodes: seq<Node>, nnPort: int, online: Endpoints): seq<Node> {
    AllPromoted(online, AllOthers(datanodes, survivors), nnPort)
  }

  ghost function Completed(survivors: seq<Node>, datanodes: seq<Node>, expected: nat, nnPort: int, online: Endpoints): seq<Node> {
    survivors + Take(Recruits(survivors, datanodes, nnPort, online), expected - |survivors|)
  }

  /** The survivors, and as many recruits as are missing. */
  ghost function Elected(namenodes: seq<Node>, datanodes: seq<Node>, expected: nat, nnPort: int, online: Endpoints): seq<Node> {
    Completed(Survivors(namenodes, online), datanodes, expected, nnPort, online)
  }

  /** node_discovery: every node of the list is scanned. */
  method NodeDiscovery(online: Endpoints, ns: seq<Node>) returns (scanned: seq<Node>)
    ensures |scanned| == |ns| && forall k | 0 <= k < |ns| :: scanned[k] == Scan(online, ns[k])
  {
    scanned := ns;
    for k := 0 to |ns|
      invariant |scanned| == |ns|
      invariant forall j | 0 <= j < k :: scanned[j] == Scan(online, ns[j])
      invariant forall j | k <= j < |ns| :: scanned[j] == ns[j]
    {
      scanned := scanned[k := Scan(online, scanned[k])];
    }
  }

  method EraseOffline(online: Endpoints, ns: seq<Node>) returns (alive: seq<Node>)
    ensures alive == AllAlive(online, ns)
  {
    var scanned := NodeDiscovery(online, ns);
    alive := [];
    for j := 0 to |scanned|
      invariant alive == Alive(online, ns, j)
    {
      if scanned[j].status == Online {
        alive := alive + [scanned[j]];
      }
    }
  }

  method EraseChosen(datanodes: seq<Node>, chosen: seq<Node>) returns (others: seq<Node>)
    requires Sorted(chosen)
    ensures others == AllOthers(datanodes, chosen)
  {
    others := [];
    for j := 0 to |datanodes|
      invariant others == Others(datanodes, chosen, j)
    {
      var found := BinarySearch(chosen, datanodes[j]);
      if !found {
        others := others + [datanodes[j]];
      }
    }
  }

  /** One chunk: its nodes are scanned and taken until there are enough. */
  method RecruitChunk(online: Endpoints, all: seq<Node>, nnPort: int, expected: nat, nodes0: seq<Node>, i: nat, end: nat, ghost base: seq<Node>)
    returns (nodes: seq<Node>, ghost seen: nat)
    requires i <= end <= |all| && |nodes0| < expected && nodes0 == base + Promoted(online, all, nnPort, i)
    ensures i <= seen <= end && nodes == base + Promoted(online, all, nnPort, seen)
    ensures |nodes| == expected || (seen == end && |nodes| < expected)
  {
    nodes, seen := nodes0, i;
    var sub := NodeDiscovery(online, all[i..end]);
    for k := 0 to |sub|
      invariant seen == i + k && nodes == base + Promoted(online, all, nnPort, seen) && |nodes| < expected
    {
      seen := seen + 1;
      if sub[k].status == Online {
        nodes := nodes + [sub[k].(port := nnPort)];
        if |nodes| >= expected {
          break;
        }
      }
    }
  }

  /** The loop over chunks of the expected size. */
  method Recruit(online: Endpoints, all: seq<Node>, nnPort: int, expected: nat, base: seq<Node>) returns (nodes: seq<Node>)
    ensures nodes == base + Take(AllPromoted(online, all, nnPort), expected - |base|)
  {
    nodes := base;
    var i := 0;
    ghost var seen: nat := 0;
    while i < |all| && |nodes| < expected
      invariant 0 <= i && seen <= |all| && nodes == base + Promoted(online, all, nnPort, seen)
      invariant |nodes| < expected ==> seen == if i < |all| then i else |all|
      invariant |nodes| == expected || |nodes| < expected || seen == 0
      decreases |all| - i
    {
      var end := if i + expected < |all| then i + expected else |all|;
      nodes, seen := RecruitChunk(online, all, nnPort, expected, nodes, i, end, base);
      i := i + expected;
    }
    TakePromoted(online, all, nnPort, expected - |base|, seen);
  }

  lemma {:induction false} PromotedPrefix(online: Endpoints, all: seq<Node>, nnPort: int, i: nat, j: nat)
    requires i <= j <= |all|
    ensures Promoted(online, all, nnPort, i) <= Promoted(online, all, nnPort, j)
  {
    if i < j {
      PromotedPrefix(online, all, nnPort, i, j - 1);
    }
  }

  lemma {:induction false} TakePromoted(online: Endpoints, all: seq<Node>, nnPort: int, k: int, seen: nat)
    requires seen <= |all|
    requires var n := |Promoted(online, all, nnPort, seen)|;
             n == k || (n < k && seen == |all|) || (k <= 0 && seen == 0)
    ensures Take(Promoted(online, all, nnPort, |all|), k) == Promoted(online, all, nnPort, seen)
  {
    PromotedPrefix(online, all, nnPort, seen, |all|);
  }

  /** on_leader_start, up to the proposal: the list that will be proposed, or the exception. */
  method OnLeaderStart(namenodes: seq<Node>, datanodes: seq<Node>, expected: nat, nnPort: int, online: Endpoints)
    returns (r: Result<seq<Node>, ElectionError>)
    ensures r == Proposal(Elected(namenodes, datanodes, expected, nnPort, online))
  {
    var survivors := FindSurvivors(namenodes, online);
    var others := EraseChosen(datanodes, survivors);
    var nodes := Recruit(online, others, nnPort, expected, survivors);
    if nodes == [] {
      return Err(NoNodeReady);
    }
    return Ok(nodes);
  }

  function Proposal(nodes: seq<Node>): Result<seq<Node>, ElectionError> {
    if nodes == [] then Err(NoNodeReady) else Ok(nodes)
  }

  /** The first half: sort, scan, and erase those that do not answer. */
  method FindSurvivors(namenodes: seq<Node>, online: Endpoints) returns (nodes: seq<Node>)
    ensures nodes == Survivors(namenodes, online) && Sorted(nodes)
  {
    var sorted := Sort(namenodes);
    SortSorts(namenodes);
    nodes := EraseOffline(online, sorted);
    AliveSorted(online, sorted, |sorted|);
  }

  // ----- where the chosen nodes come from -----

  lemma {:induction false} AliveFrom(online: Endpoints, ns: seq<Node>, j: nat, k: nat) returns (i: nat)
    requires j <= |ns| && k < |Alive(online, ns, j)|
    ensures i < j && Answers(online, ns[i]) && Alive(online, ns, j)[k] == Scan(online, ns[i])
  {
    if k < |Alive(online, ns, j - 1)| {
      i := AliveFrom(online, ns, j - 1, k);
    } else {
      i := j - 1;
    }
  }

  lemma {:induction false} AliveSorted(online: Endpoints, ns: seq<Node>, j: nat)
    requires j <= |ns| && Sorted(ns)
    ensures Sorted(Alive(online, ns, j))
  {
    if j > 0 {
      AliveSorted(online, ns, j - 1);
      var alive := Alive(online, ns, j - 1);
      forall k | 0 <= k < |alive| ensures !Before(ns[j - 1].ip, alive[k].ip) {
        var i := AliveFrom(online, ns, j - 1, k);
      }
    }
  }

  lemma {:induction false} AliveHas(online: Endpoints, ns: seq<Node>, j: nat, i: nat)
    requires i < j <= |ns| && Answers(online, ns[i])
    ensures Has(Alive(online, ns, j), ns[i].ip)
  {
    var before := Alive(online, ns, j - 1);
    if i < j - 1 {
      AliveHas(online, ns, j - 1, i);
      HasIn(before, Alive(online, ns, j), ns[i].ip);
    } else {
      assert Alive(online, ns, j)[|before|].ip == ns[i].ip;
    }
  }

  lemma {:induction false} HasIn(a: seq<Node>, b: seq<Node>, ip: string)
    requires a <= b && Has(a, ip)
    ensures Has(b, ip)
  {
    var i :| 0 <= i < |a| && a[i].ip == ip;
    assert b[i].ip == ip;
  }

  lemma {:induction false} OthersFrom(datanodes: seq<Node>, chosen: seq<Node>, j: nat, k: nat) returns (i: nat)
    requires j <= |datanodes| && k < |Others(datanodes, chosen, j)|
    ensures i < j && Others(datanodes, chosen, j)[k] == datanodes[i] && !Has(chosen, datanodes[i].ip)
  {
    if k < |Others(datanodes, chosen, j - 1)| {
      i := OthersFrom(datanodes, chosen, j - 1, k);
    } else {
      i := j - 1;
    }
  }

  lemma {:induction false} OthersHold(datanodes: seq<Node>, chosen: seq<Node>, j: nat, i: nat) returns (k: nat)
    requires i < j <= |datanodes| && !Has(chosen, datanodes[i].ip)
    ensures k < |Others(datanodes, chosen, j)| && Others(datanodes, chosen, j)[k] == datanodes[i]
  {
    if i < j - 1 {
      k := OthersHold(datanodes, chosen, j - 1, i);
    } else {
      k := |Others(datanodes, chosen, j - 1)|;
    }
  }

  lemma {:induction false} PromotedFrom(online: Endpoints, ns: seq<Node>, nnPort: int, j: nat, k: nat) returns (i: nat)
    requires j <= |ns| && k < |Promoted(online, ns, nnPort, j)|
    ensures i < j && Answers(online, ns[i]) && Promoted(online, ns, nnPort, j)[k] == Scan(online, ns[i]).(port := nnPort)
  {
    if k < |Promoted(online, ns, nnPort, j - 1)| {
      i := PromotedFrom(online, ns, nnPort, j - 1, k);
    } else {
      i := j - 1;
    }
  }

  lemma {:induction false} PromotedHas(online: Endpoints, ns: seq<Node>, nnPort: int, j: nat, i: nat)
    requires i < j <= |ns| && Answers(online, ns[i])
    ensures Has(Promoted(online, ns, nnPort, j), ns[i].ip)
  {
    var before := Promoted(online, ns, nnPort, j - 1);
    if i < j - 1 {
      PromotedHas(online, ns, nnPort, j - 1, i);
      HasIn(before, Promoted(online, ns, nnPort, j), ns[i].ip);
    } else {
      assert Promoted(online, ns, nnPort, j)[|before|].ip == ns[i].ip;
    }
  }

  /** A survivor is a present namenode that answers. */
  lemma {:induction false} SurvivorFrom(namenodes: seq<Node>, online: Endpoints, k: nat) returns (i: nat)
    requires k < |Survivors(namenodes, online)|
    ensures i < |namenodes| && (namenodes[i].ip, namenodes[i].port) in online
    ensures Survivors(namenodes, online)[k] == Node(namenodes[i].ip, namenodes[i].port, Online)
  {
    var sorted := Sort(namenodes);
    var j := AliveFrom(online, sorted, |sorted|, k);
    SortKeeps(namenodes);
    i := MembersOf(sorted, namenodes, j);
  }

  /** Every present namenode that answers survives. */
  lemma {:induction false} SurvivorHas(namenodes: seq<Node>, online: Endpoints, i: nat)
    requires i < |namenodes| && Answers(online, namenodes[i])
    ensures Has(Survivors(namenodes, online), namenodes[i].ip)
  {
    var sorted := Sort(namenodes);
    SortKeeps(namenodes);
    var j := MembersOf(namenodes, sorted, i);
    AliveHas(online, sorted, |sorted|, j);
  }

  /** A recruit is a datanode that answers and whose address is not among the survivors'. */
  lemma {:induction false} RecruitFrom(survivors: seq<Node>, datanodes: seq<Node>, nnPort: int, online: Endpoints, k: nat) returns (i: nat)
    requires k < |Recruits(survivors, datanodes, nnPort, online)|
    ensures i < |datanodes| && Answers(online, datanodes[i]) && !Has(survivors, datanodes[i].ip)
    ensures Recruits(survivors, datanodes, nnPort, online)[k] == Scan(online, datanodes[i]).(port := nnPort)
  {
    var others := AllOthers(datanodes, survivors);
    var j := PromotedFrom(online, others, nnPort, |others|, k);
    i := OthersFrom(datanodes, survivors, |datanodes|, j);
  }

  // ----- in which order they come -----

  ghost predicate Ascending(at: seq<nat>) { forall k, m | 0 <= k < m < |at| :: at[k] < at[m] }

  /** The positions below `j` that are marked, in order. */
  function At(keep: seq<bool>, j: nat): seq<nat>
    requires j <= |keep|
  {
    if j == 0 then [] else At(keep, j - 1) + if keep[j - 1] then [j - 1] else []
  }

  lemma {:induction false} AtIs(keep: seq<bool>, j: nat, k: nat)
    requires j <= |keep| && k < |At(keep, j)|
    ensures At(keep, j)[k] < j && keep[At(keep, j)[k]]
  {
    if k < |At(keep, j - 1)| {
      AtIs(keep, j - 1, k);
    }
  }

  lemma {:induction false} AtHas(keep: seq<bool>, j: nat, i: nat)
    requires j <= |keep|
    ensures i in At(keep, j) <==> i < j && keep[i]
  {
    if j > 0 {
      AtHas(keep, j - 1, i);
    }
  }

  lemma {:induction false} AtAscends(keep: seq<bool>, j: nat, k: nat, m: nat)
    requires j <= |keep| && k < m < |At(keep, j)|
    ensures At(keep, j)[k] < At(keep, j)[m]
  {
    if m < |At(keep, j - 1)| {
      AtAscends(keep, j - 1, k, m);
    } else {
      AtIs(keep, j - 1, k);
    }
  }

  lemma {:induction false} AllAt(keep: seq<bool>)
    ensures Ascending(At(keep, |keep|))
    ensures forall k | 0 <= k < |At(keep, |keep|)| :: At(keep, |keep|)[k] < |keep|
    ensures forall i: nat | i < |keep| :: i in At(keep, |keep|) <==> keep[i]
  {
    var at := At(keep, |keep|);
    forall k, m | 0 <= k < m < |at| ensures at[k] < at[m] { AtAscends(keep, |keep|, k, m); }
    forall k | 0 <= k < |at| ensures at[k] < |keep| { AtIs(keep, |keep|, k); }
    forall i: nat | i < |keep| ensures i in at <==> keep[i] { AtHas(keep, |keep|, i); }
  }

  lemma {:induction false} OthersIs(datanodes: seq<Node>, chosen: seq<Node>, keep: seq<bool>, j: nat, k: nat)
    requires |keep| == |datanodes| && j <= |keep| && forall i | 0 <= i < |keep| :: keep[i] <==> !Has(chosen, datanodes[i].ip)
    ensures |Others(datanodes, chosen, j)| == |At(keep, j)|
    ensures k < |At(keep, j)| ==> At(keep, j)[k] < j && Others(datanodes, chosen, j)[k] == datanodes[At(keep, j)[k]]
  {
    if j > 0 {
      OthersIs(datanodes, chosen, keep, j - 1, k);
    }
  }

  lemma {:induction false} PromotedIs(online: Endpoints, ns: seq<Node>, nnPort: int, keep: seq<bool>, j: nat, k: nat)
    requires |keep| == |ns| && j <= |keep| && forall i | 0 <= i < |keep| :: keep[i] <==> Answers(online, ns[i])
    ensures |Promoted(online, ns, nnPort, j)| == |At(keep, j)|
    ensures k < |At(keep, j)| ==> At(keep, j)[k] < j && Promoted(online, ns, nnPort, j)[k] == Node(ns[At(keep, j)[k]].ip, nnPort, Online)
  {
    if j > 0 {
      PromotedIs(online, ns, nnPort, keep, j - 1, k);
    }
  }

  ghost function LeftMarks(datanodes: seq<Node>, chosen: seq<Node>): (keep: seq<bool>)
    ensures |keep| == |datanodes| && forall i | 0 <= i < |keep| :: keep[i] <==> !Has(chosen, datanodes[i].ip)
  {
    seq(|datanodes|, i requires 0 <= i < |datanodes| => !Has(chosen, datanodes[i].ip))
  }

  function AnswerMarks(online: Endpoints, ns: seq<Node>): (keep: seq<bool>)
    ensures |keep| == |ns| && forall i | 0 <= i < |keep| :: keep[i] <==> Answers(online, ns[i])
  {
    seq(|ns|, i requires 0 <= i < |ns| => Answers(online, ns[i]))
  }

  /** The positions of the datanodes that are left, in order: all whose address is not among the chosen ones. */
  lemma {:induction false} OthersAt(datanodes: seq<Node>, chosen: seq<Node>) returns (at: seq<nat>)
    ensures |at| == |AllOthers(datanodes, chosen)| && Ascending(at)
    ensures forall k | 0 <= k < |at| :: at[k] < |datanodes| && AllOthers(datanodes, chosen)[k] == datanodes[at[k]]
    ensures forall i: nat | i < |datanodes| :: i in at <==> !Has(chosen, datanodes[i].ip)
  {
    var keep := LeftMarks(datanodes, chosen);
    at := At(keep, |keep|);
    AllAt(keep);
    OthersIs(datanodes, chosen, keep, |keep|, 0);
    forall k | 0 <= k < |at| ensures at[k] < |datanodes| && AllOthers(datanodes, chosen)[k] == datanodes[at[k]] {
      OthersIs(datanodes, chosen, keep, |keep|, k);
    }
  }

  lemma {:induction false} PromotedAt(online: Endpoints, ns: seq<Node>, nnPort: int) returns (at: seq<nat>)
    ensures |at| == |AllPromoted(online, ns, nnPort)| && Ascending(at)
    ensures forall k | 0 <= k < |at| :: at[k] < |ns| && AllPromoted(online, ns, nnPort)[k] == Node(ns[at[k]].ip, nnPort, Online)
    ensures forall i: nat | i < |ns| :: i in at <==> Answers(online, ns[i])
  {
    var keep := AnswerMarks(online, ns);
    at := At(keep, |keep|);
    AllAt(keep);
    PromotedIs(online, ns, nnPort, keep, |keep|, 0);
    forall k | 0 <= k < |at| ensures at[k] < |ns| && AllPromoted(online, ns, nnPort)[k] == Node(ns[at[k]].ip, nnPort, Online) {
      PromotedIs(online, ns, nnPort, keep, |keep|, k);
    }
  }

  /** Positions picked out of positions. */
  function Picked(outer: seq<nat>, inner: seq<nat>): (at: seq<nat>)
    requires forall k | 0 <= k < |inner| :: inner[k] < |outer|
    ensures |at| == |inner| && forall k | 0 <= k < |inner| :: at[k] == outer[inner[k]]
  {
    seq(|inner|, k requires 0 <= k < |inner| => outer[inner[k]])
  }

  /** The recruits are the datanodes that answer and whose address is not among the survivors', in the order of the
      datanode list. */
  lemma {:induction false} RecruitsAt(survivors: seq<Node>, datanodes: seq<Node>, nnPort: int, online: Endpoints) returns (at: seq<nat>)
    ensures |at| == |Recruits(survivors, datanodes, nnPort, online)| && Ascending(at)
    ensures forall k | 0 <= k < |at| ::
              at[k] < |datanodes| && Recruits(survivors, datanodes, nnPort, online)[k] == Node(datanodes[at[k]].ip, nnPort, Online)
    ensures forall i: nat | i < |datanodes| :: i in at <==> Answers(online, datanodes[i]) && !Has(survivors, datanodes[i].ip)
  {
    var others := AllOthers(datanodes, survivors);
    var outer := OthersAt(datanodes, survivors);
    var inner := PromotedAt(online, others, nnPort);
    at := Picked(outer, inner);
    forall i: nat | i < |datanodes| ensures i in at <==> Answers(online, datanodes[i]) && !Has(survivors, datanodes[i].ip) {
      PickedHas(datanodes, others, outer, inner, online, i);
    }
  }

  lemma {:induction false} PickedHas(datanodes: seq<Node>, others: seq<Node>, outer: seq<nat>, inner: seq<nat>, online: Endpoints, i: nat)
    requires i < |datanodes| && |outer| == |others| && Ascending(outer)
    requires forall k | 0 <= k < |outer| :: outer[k] < |datanodes| && others[k] == datanodes[outer[k]]
    requires (forall k | 0 <= k < |inner| :: inner[k] < |outer|) && forall m: nat | m < |others| :: m in inner <==> Answers(online, others[m])
    ensures i in Picked(outer, inner) <==> i in outer && Answers(online, datanodes[i])
  {
    var at := Picked(outer, inner);
    if i in at {
      var k :| 0 <= k < |at| && at[k] == i;
      assert inner[k] in inner && others[inner[k]] == datanodes[i];
    }
    if i in outer && Answers(online, datanodes[i]) {
      var m: nat :| m < |outer| && outer[m] == i;
      assert m in inner;
      var k :| 0 <= k < |inner| && inner[k] == m;
      assert at[k] == i;
    }
  }

  /** The list that is elected: the survivors, then datanodes in the order of their list, none of which is passed over:
      whoever answers and stands before a recruited datanode has its address in the list as well. */
  lemma {:induction false} ElectedInOrder(namenodes: seq<Node>, datanodes: seq<Node>, expected: nat, nnPort: int, online: Endpoints) returns (at: seq<nat>)
    ensures var elected, survivors := Elected(namenodes, datanodes, expected, nnPort, online), Survivors(namenodes, online);
            && |elected| == |survivors| + |at| && elected[..|survivors|] == survivors && Ascending(at)
            && (forall k | 0 <= k < |at| :: at[k] < |datanodes| && elected[|survivors| + k] == Node(datanodes[at[k]].ip, nnPort, Online))
            && (forall k | 0 <= k < |at| :: (datanodes[at[k]].ip, datanodes[at[k]].port) in online && !Has(survivors, datanodes[at[k]].ip))
            && (forall i: nat, k | 0 <= k < |at| && i < at[k] && (datanodes[i].ip, datanodes[i].port) in online ::
                  Has(survivors, datanodes[i].ip) || i in at)
            && (|elected| > |survivors| ==> |elected| <= expected)
  {
    var survivors := Survivors(namenodes, online);
    var all := RecruitsAt(survivors, datanodes, nnPort, online);
    var n := |Take(Recruits(survivors, datanodes, nnPort, online), expected - |survivors|)|;
    at := all[..n];
    forall k | 0 <= k < |at| ensures Answers(online, datanodes[at[k]]) && !Has(survivors, datanodes[at[k]].ip) {
      assert all[k] in all;
    }
    forall i: nat, k | 0 <= k < |at| && i < at[k] && Answers(online, datanodes[i]) ensures Has(survivors, datanodes[i].ip) || i in at {
      if !Has(survivors, datanodes[i].ip) {
        var m :| 0 <= m < |all| && all[m] == i;
        assert m < k && at[m] == i;
      }
    }
  }

  // ----- no address twice -----

  lemma {:induction false} InsertDistinct(ns: seq<Node>, x: Node)
    requires Distinct(ns) && !Has(ns, x.ip)
    ensures Distinct(Insert(ns, x))
  {
    if ns != [] && !Before(x.ip, ns[0].ip) {
      assert forall k | 0 <= k < |ns[1..]| :: ns[1..][k].ip == ns[k + 1].ip;
      InsertDistinct(ns[1..], x);
      var rest := Insert(ns[1..], x);
      forall j | 0 <= j < |rest| ensures rest[j].ip != ns[0].ip {
        InsertKeeps(ns[1..], x);
        var k := MembersOf(rest, ns[1..] + [x], j);
      }
    }
  }

  lemma {:induction false} SortDistinct(ns: seq<Node>)
    requires Distinct(ns)
    ensures Distinct(Sort(ns))
  {
    if ns != [] {
      SortDistinct(ns[1..]);
      SortKeeps(ns[1..]);
      var rest := Sort(ns[1..]);
      forall j | 0 <= j < |rest| ensures rest[j].ip != ns[0].ip {
        var k := MembersOf(rest, ns[1..], j);
      }
      InsertDistinct(rest, ns[0]);
    }
  }

  lemma {:induction false} TailOf(a: seq<Node>)
    requires a != []
    ensures multiset(a[1..]) == multiset(a) - multiset{a[0]}
  {
    assert a == [a[0]] + a[1..];
  }

  lemma {:induction false} SameHead(a: seq<Node>, b: seq<Node>)
    requires Sorted(a) && Sorted(b) && Distinct(a) && multiset(a) == multiset(b) && a != [] && b != []
    ensures a[0] == b[0]
  {
    var i := MembersOf(b, a, 0);
    var j := MembersOf(a, b, 0);
    BeforeTotal(a[0].ip, a[i].ip);
  }

  /** A list without duplicate addresses has one sorted order, so any sorting algorithm gives it. */
  lemma {:induction false} SortedIsUnique(a: seq<Node>, b: seq<Node>)
    requires Sorted(a) && Sorted(b) && Distinct(a) && multiset(a) == multiset(b)
    ensures a == b
  {
    assert |a| == |multiset(a)| == |multiset(b)| == |b|;
    if a != [] {
      SameHead(a, b);
      TailOf(a);
      TailOf(b);
      SortedIsUnique(a[1..], b[1..]);
      assert a == [a[0]] + a[1..] && b == [b[0]] + b[1..];
    }
  }

  lemma {:induction false} SortIsDetermined(ns: seq<Node>, sorted: seq<Node>)
    requires Distinct(ns) && Sorted(sorted) && multiset(sorted) == multiset(ns)
    ensures sorted == Sort(ns)
  {
    SortSorts(ns);
    SortKeeps(ns);
    SortDistinct(ns);
    SortedIsUnique(Sort(ns), sorted);
  }

  lemma {:induction false} AliveDistinct(online: Endpoints, ns: seq<Node>, j: nat)
    requires j <= |ns| && Distinct(ns)
    ensures Distinct(Alive(online, ns, j))
  {
    if j > 0 {
      AliveDistinct(online, ns, j - 1);
      var alive := Alive(online, ns, j - 1);
      forall k | 0 <= k < |alive| ensures alive[k].ip != ns[j - 1].ip {
        var i := AliveFrom(online, ns, j - 1, k);
      }
    }
  }

  lemma {:induction false} OthersDistinct(datanodes: seq<Node>, chosen: seq<Node>, j: nat)
    requires j <= |datanodes| && Distinct(datanodes)
    ensures Distinct(Others(datanodes, chosen, j))
  {
    if j > 0 {
      OthersDistinct(datanodes, chosen, j - 1);
      var others := Others(datanodes, chosen, j - 1);
      forall k | 0 <= k < |others| ensures others[k].ip != datanodes[j - 1].ip {
        var i := OthersFrom(datanodes, chosen, j - 1, k);
      }
    }
  }

  lemma {:induction false} PromotedDistinct(online: Endpoints, ns: seq<Node>, nnPort: int, j: nat)
    requires j <= |ns| && Distinct(ns)
    ensures Distinct(Promoted(online, ns, nnPort, j))
  {
    if j > 0 {
      PromotedDistinct(online, ns, nnPort, j - 1);
      var promoted := Promoted(online, ns, nnPort, j - 1);
      forall k | 0 <= k < |promoted| ensures promoted[k].ip != ns[j - 1].ip {
        var i := PromotedFrom(online, ns, nnPort, j - 1, k);
      }
    }
  }

  lemma {:induction false} SurvivorsDistinct(namenodes: seq<Node>, online: Endpoints)
    requires Distinct(namenodes)
    ensures Distinct(Survivors(namenodes, online))
  {
    SortDistinct(namenodes);
    AliveDistinct(online, Sort(namenodes), |Sort(namenodes)|);
  }

  lemma {:induction false} RecruitsDistinct(survivors: seq<Node>, datanodes: seq<Node>, nnPort: int, online: Endpoints)
    requires Distinct(datanodes)
    ensures Distinct(Recruits(survivors, datanodes, nnPort, online))
  {
    var others := AllOthers(datanodes, survivors);
    OthersDistinct(datanodes, survivors, |datanodes|);
    PromotedDistinct(online, others, nnPort, |others|);
  }

  lemma {:induction false} AliveSize(online: Endpoints, ns: seq<Node>, j: nat)
    requires j <= |ns|
    ensures |Alive(online, ns, j)| <= j
  {
    if j > 0 {
      AliveSize(online, ns, j - 1);
    }
  }

  // ----- every election -----

  ghost predicate FitAt(n: Node, datanodes: seq<Node>, nnPort: int) { n.port == nnPort && Has(datanodes, n.ip) }

  /** A namenode list: no address twice, only datanodes' addresses, at most the expected number. */
  ghost predicate Fit(namenodes: seq<Node>, datanodes: seq<Node>, expected: nat, nnPort: int) {
    && Distinct(namenodes)
    && |namenodes| <= expected
    && forall i | 0 <= i < |namenodes| :: FitAt(namenodes[i], datanodes, nnPort)
  }

  lemma {:induction false} ElectedDistinct(namenodes: seq<Node>, datanodes: seq<Node>, expected: nat, nnPort: int, online: Endpoints)
    requires Distinct(datanodes) && Distinct(namenodes)
    ensures Distinct(Elected(namenodes, datanodes, expected, nnPort, online))
  {
    var survivors := Survivors(namenodes, online);
    var recruits := Recruits(survivors, datanodes, nnPort, online);
    SurvivorsDistinct(namenodes, online);
    RecruitsDistinct(survivors, datanodes, nnPort, online);
    forall i, k | 0 <= i < |survivors| && 0 <= k < |recruits| ensures survivors[i].ip != recruits[k].ip {
      var d := RecruitFrom(survivors, datanodes, nnPort, online, k);
    }
    DistinctSum(survivors, recruits, Take(recruits, expected - |survivors|));
  }

  lemma {:induction false} DistinctSum(a: seq<Node>, b: seq<Node>, taken: seq<Node>)
    requires Distinct(a) && Distinct(b) && taken <= b
    requires forall i, k | 0 <= i < |a| && 0 <= k < |b| :: a[i].ip != b[k].ip
    ensures Distinct(a + taken)
  {
  }

  lemma {:induction false} ElectedFit(namenodes: seq<Node>, datanodes: seq<Node>, expected: nat, nnPort: int, online: Endpoints)
    requires Distinct(datanodes) && Fit(namenodes, datanodes, expected, nnPort)
    ensures Fit(Elected(namenodes, datanodes, expected, nnPort, online), datanodes, expected, nnPort)
  {
    var survivors := Survivors(namenodes, online);
    var recruits := Recruits(survivors, datanodes, nnPort, online);
    ElectedDistinct(namenodes, datanodes, expected, nnPort, online);
    AliveSize(online, Sort(namenodes), |Sort(namenodes)|);
    SortSize(namenodes);
    forall k | 0 <= k < |survivors| ensures FitAt(survivors[k], datanodes, nnPort) {
      var i := SurvivorFrom(namenodes, online, k);
      assert FitAt(namenodes[i], datanodes, nnPort);
    }
    forall k | 0 <= k < |recruits| ensures FitAt(recruits[k], datanodes, nnPort) {
      var i := RecruitFrom(survivors, datanodes, nnPort, online, k);
    }
  }

  /** A present namenode that answers stays one. */
  lemma {:induction false} ElectedKeeps(namenodes: seq<Node>, datanodes: seq<Node>, expected: nat, nnPort: int, online: Endpoints, i: nat)
    requires i < |namenodes| && (namenodes[i].ip, namenodes[i].port) in online
    ensures Has(Elected(namenodes, datanodes, expected, nnPort, online), namenodes[i].ip)
  {
    SurvivorHas(namenodes, online, i);
    HasIn(Survivors(namenodes, online), Elected(namenodes, datanodes, expected, nnPort, online), namenodes[i].ip);
  }

  /** A list shorter than expected leaves out no datanode that answers. */
  lemma {:induction false} ShortIsComplete(namenodes: seq<Node>, datanodes: seq<Node>, expected: nat, nnPort: int, online: Endpoints, i: nat)
    requires |Elected(namenodes, datanodes, expected, nnPort, online)| < expected
    requires i < |datanodes| && (datanodes[i].ip, datanodes[i].port) in online
    ensures Has(Elected(namenodes, datanodes, expected, nnPort, online), datanodes[i].ip)
  {
    var survivors := Survivors(namenodes, online);
    var recruits := Recruits(survivors, datanodes, nnPort, online);
    var elected := Elected(namenodes, datanodes, expected, nnPort, online);
    if Has(survivors, datanodes[i].ip) {
      HasIn(survivors, elected, datanodes[i].ip);
    } else {
      var others := Others(datanodes, survivors, |datanodes|);
      var k := OthersHold(datanodes, survivors, |datanodes|, i);
      PromotedHas(online, others, nnPort, |others|, k);
      assert elected == survivors + recruits;
      var m :| 0 <= m < |recruits| && recruits[m].ip == datanodes[i].ip;
      assert elected[|survivors| + m].ip == datanodes[i].ip;
    }
  }

  /** What every datanode stores once the proposal is applied: the text carries address and port only. */
  function Applied(ns: seq<Node>): (r: seq<Node>)
    ensures |r| == |ns| && forall i | 0 <= i < |ns| :: r[i] == Node(ns[i].ip, ns[i].port, Unknown)
  {
    seq(|ns|, i requires 0 <= i < |ns| => ns[i].(status := Unknown))
  }

  /** One election and the application of its proposal; one that finds no node proposes nothing. */
  ghost function Renewed(namenodes: seq<Node>, datanodes: seq<Node>, expected: nat, nnPort: int, online: Endpoints): seq<Node> {
    var elected := Elected(namenodes, datanodes, expected, nnPort, online);
    if elected == [] then namenodes else Applied(elected)
  }

  lemma {:induction false} RenewedFit(namenodes: seq<Node>, datanodes: seq<Node>, expected: nat, nnPort: int, online: Endpoints)
    requires Distinct(datanodes) && Fit(namenodes, datanodes, expected, nnPort)
    ensures Fit(Renewed(namenodes, datanodes, expected, nnPort, online), datanodes, expected, nnPort)
  {
    ElectedFit(namenodes, datanodes, expected, nnPort, online);
    AppliedFit(Elected(namenodes, datanodes, expected, nnPort, online), datanodes, expected, nnPort);
  }

  /** The list after a run of elections. */
  ghost function Run(datanodes: seq<Node>, expected: nat, nnPort: int, rounds: seq<Endpoints>): seq<Node> {
    if rounds == [] then [] else
      Renewed(Run(datanodes, expected, nnPort, rounds[..|rounds| - 1]), datanodes, expected, nnPort, rounds[|rounds| - 1])
  }

  /** The datanode that leads: the namenode list it keeps, and what it elects. */
  class RaftDN {
    const datanodes: seq<Node>
    const expected: nat
    const nnPort: int
    var namenodes: seq<Node>

    constructor (datanodes: seq<Node>, expected: nat, nnPort: int)
      ensures this.datanodes == datanodes && this.expected == expected && this.nnPort == nnPort
      ensures namenodes == []
    {
      this.datanodes := datanodes;
      this.expected := expected;
      this.nnPort := nnPort;
      namenodes := [];
    }

    /** on_apply: the last entry of the batch replaces the list. */
    method OnApply(batch: seq<seq<Node>>)
      requires batch != []
      modifies `namenodes
      ensures namenodes == Applied(batch[|batch| - 1])
    {
      var data := [];
      for i := 0 to |batch|
        invariant i > 0 ==> data == batch[i - 1]
      {
        data := batch[i];
      }
      namenodes := Applied(data);
    }

    /** on_leader_start, and the entry it proposes once it is applied. */
    method Round(online: Endpoints) returns (r: Result<seq<Node>, ElectionError>)
      modifies `namenodes
      ensures r == Proposal(Elected(old(namenodes), datanodes, expected, nnPort, online))
      ensures namenodes == Renewed(old(namenodes), datanodes, expected, nnPort, online)
      ensures r.Err? ==> namenodes == old(namenodes)
      ensures r.Ok? ==> |namenodes| == |r.value| && forall i | 0 <= i < |r.value| :: namenodes[i] == Node(r.value[i].ip, r.value[i].port, Unknown)
      ensures Distinct(datanodes) && Fit(old(namenodes), datanodes, expected, nnPort) ==> Fit(namenodes, datanodes, expected, nnPort)
    {
      if Distinct(datanodes) && Fit(namenodes, datanodes, expected, nnPort) {
        RenewedFit(namenodes, datanodes, expected, nnPort, online);
      }
      r := OnLeaderStart(namenodes, datanodes, expected, nnPort, online);
      if r.Ok? {
        OnApply([r.value]);
      }
    }
  }

  /** Over any number of elections, whoever answers in each, the list stays fit. */
  lemma {:induction false} EveryElectionFits(datanodes: seq<Node>, expected: nat, nnPort: int, rounds: seq<Endpoints>)
    requires Distinct(datanodes)
    ensures Fit(Run(datanodes, expected, nnPort, rounds), datanodes, expected, nnPort)
  {
    if rounds != [] {
      var before := rounds[..|rounds| - 1];
      EveryElectionFits(datanodes, expected, nnPort, before);
      RenewedFit(Run(datanodes, expected, nnPort, before), datanodes, expected, nnPort, rounds[|rounds| - 1]);
    }
  }

  lemma {:induction false} AppliedFit(ns: seq<Node>, datanodes: seq<Node>, expected: nat, nnPort: int)
    requires Fit(ns, datanodes, expected, nnPort)
    ensures Fit(Applied(ns), datanodes, expected, nnPort)
  {
    forall i | 0 <= i < |ns| ensures FitAt(Applied(ns)[i], datanodes, nnPort) {
      assert FitAt(ns[i], datanodes, nnPort);
    }
  }
}
