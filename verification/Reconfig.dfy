/** How a server follows a new namenode list, and why the choice between the two ways of
    reconfiguring the namenodes' group keeps its quorums. */
module Reconfig {
  import opened NodeText
  import opened Election

  function Addresses(ns: seq<Node>, j: nat): set<string>
    requires j <= |ns|
  {
    if j == 0 then {} else Addresses(ns, j - 1) + {ns[j - 1].ip}
  }

  function Group(ns: seq<Node>): set<string> { Addresses(ns, |ns|) }

  lemma {:induction false} AddressesAre(ns: seq<Node>, j: nat, ip: string)
    requires j <= |ns|
    ensures ip in Addresses(ns, j) <==> Has(ns[..j], ip)
  {
    if j > 0 {
      AddressesAre(ns, j - 1, ip);
      assert ns[..j] == ns[..j - 1] + [ns[j - 1]];
      if ns[j - 1].ip == ip {
        assert ns[..j][j - 1].ip == ip;
      } else if Has(ns[..j - 1], ip) {
        HasIn(ns[..j - 1], ns[..j], ip);
      } else {
        assert forall i | 0 <= i < j - 1 :: ns[..j][i] == ns[..j - 1][i];
      }
    }
  }

  lemma {:induction false} GroupIs(ns: seq<Node>, ip: string)
    ensures ip in Group(ns) <==> Has(ns, ip)
  {
    AddressesAre(ns, |ns|, ip);
    assert ns[..|ns|] == ns;
  }

  lemma {:induction false} AddressesCount(ns: seq<Node>, j: nat)
    requires j <= |ns| && Distinct(ns)
    ensures |Addresses(ns, j)| == j
  {
    if j > 0 {
      AddressesCount(ns, j - 1);
      NewAddress(ns, j - 1);
    }
  }

  lemma {:induction false} NewAddress(ns: seq<Node>, j: nat)
    requires j < |ns| && Distinct(ns)
    ensures ns[j].ip !in Addresses(ns, j)
  {
    AddressesAre(ns, j, ns[j].ip);
  }

  /** How many of the first `j` old members are in the next list. */
  ghost function Staying(prev: seq<Node>, next: seq<Node>, j: nat): nat
    requires j <= |prev|
  {
    if j == 0 then 0 else Staying(prev, next, j - 1) + if Has(next, prev[j - 1].ip) then 1 else 0
  }

  lemma {:induction false} StayingIsCommon(prev: seq<Node>, next: seq<Node>, j: nat)
    requires j <= |prev| && Distinct(prev)
    ensures Staying(prev, next, j) == |Addresses(prev, j) * Group(next)|
  {
    if j > 0 {
      StayingIsCommon(prev, next, j - 1);
      NewAddress(prev, j - 1);
      GroupIs(next, prev[j - 1].ip);
      CommonGrows(Addresses(prev, j - 1), prev[j - 1].ip, Group(next));
    }
  }

  lemma {:induction false} CommonGrows(before: set<string>, ip: string, group: set<string>)
    requires ip !in before
    ensures |(before + {ip}) * group| == |before * group| + if ip in group then 1 else 0
  {
    if ip in group {
      assert (before + {ip}) * group == before * group + {ip};
    } else {
      assert (before + {ip}) * group == before * group;
    }
  }

  // ----- quorums -----

  /** More than half of the members. */
  ghost predicate Majority(quorum: set<string>, members: set<string>) {
    quorum <= members && 2 * |quorum| > |members|
  }

  ghost predicate EveryMajorityMeets(next: set<string>, prev: set<string>) {
    forall quorum | Majority(quorum, next) :: quorum * prev != {}
  }

  /** Every majority of the next group has an old member if and only if half of the group are old members. */
  lemma {:induction false} MajoritiesMeetIff(prev: set<string>, next: set<string>)
    ensures EveryMajorityMeets(next, prev) <==> 2 * |prev * next| >= |next|
  {
    var strangers := next - prev;
    assert next == prev * next + strangers;
    if 2 * |prev * next| < |next| {
      assert Majority(strangers, next) && strangers * prev == {};
    } else {
      forall quorum | Majority(quorum, next) ensures quorum * prev != {} {
        if quorum * prev == {} {
          assert quorum <= strangers;
          SubsetSize(quorum, strangers);
        }
      }
    }
  }

  lemma {:induction false} SubsetSize<T>(a: set<T>, b: set<T>)
    requires a <= b
    ensures |a| <= |b|
  {
    assert b == a + (b - a);
  }

  /** The test in change_namenodes_list. */
  ghost predicate TakesChange(prev: seq<Node>, next: seq<Node>) { Staying(prev, next, |prev|) > |next| / 2 }

  /** Taking change_peers means that a strict majority of the next group are old members. */
  lemma {:induction false} ChangeMeansMajority(prev: seq<Node>, next: seq<Node>)
    requires Distinct(prev) && Distinct(next)
    ensures |Group(next)| == |next|
    ensures TakesChange(prev, next) <==> Majority(Group(prev) * Group(next), Group(next))
  {
    AddressesCount(next, |next|);
    StayingIsCommon(prev, next, |prev|);
  }

  /** change_peers keeps every quorum in touch with the old group; reset_peers is taken exactly when some
      quorum of the next group knows no old member, or when old and new members are equally many. */
  lemma {:induction false} ChangeKeepsQuorums(prev: seq<Node>, next: seq<Node>)
    requires Distinct(prev) && Distinct(next)
    ensures TakesChange(prev, next) ==> EveryMajorityMeets(Group(next), Group(prev))
    ensures !TakesChange(prev, next) <==>
              !EveryMajorityMeets(Group(next), Group(prev)) || 2 * |Group(prev) * Group(next)| == |next|
  {
    ChangeMeansMajority(prev, next);
    MajoritiesMeetIff(Group(prev), Group(next));
  }

  // ----- together with the election -----

  /** The addresses of the listed nodes that answer. */
  ghost function Answering(online: Endpoints, ns: seq<Node>): set<string> {
    set i | 0 <= i < |ns| && (ns[i].ip, ns[i].port) in online :: ns[i].ip
  }

  lemma {:induction false} AppliedHas(ns: seq<Node>, ip: string)
    requires Has(ns, ip)
    ensures Has(Applied(ns), ip)
  {
    var i :| 0 <= i < |ns| && ns[i].ip == ip;
    assert Applied(ns)[i].ip == ip;
  }

  /** Old members that answer are members of both groups. */
  lemma {:induction false} AnsweringStay(prev: seq<Node>, datanodes: seq<Node>, expected: nat, nnPort: int, online: Endpoints)
    ensures var next := Applied(Elected(prev, datanodes, expected, nnPort, online));
            Answering(online, prev) <= Group(prev) * Group(next)
  {
    var elected := Elected(prev, datanodes, expected, nnPort, online);
    var next := Applied(elected);
    forall ip | ip in Answering(online, prev) ensures ip in Group(prev) && ip in Group(next) {
      var i :| 0 <= i < |prev| && (prev[i].ip, prev[i].port) in online && prev[i].ip == ip;
      ElectedKeeps(prev, datanodes, expected, nnPort, online, i);
      AppliedHas(elected, ip);
      GroupIs(prev, ip);
      GroupIs(next, ip);
    }
  }

  /** While more than half of the expected number of namenodes answer, the next election is followed by
      change_peers, and every quorum of the new group has an old member. */
  lemma {:induction false} ElectionKeepsQuorums(prev: seq<Node>, datanodes: seq<Node>, expected: nat, nnPort: int, online: Endpoints)
    requires Distinct(datanodes) && Fit(prev, datanodes, expected, nnPort)
    requires 2 * |Answering(online, prev)| > expected
    ensures var next := Applied(Elected(prev, datanodes, expected, nnPort, online));
            TakesChange(prev, next) && EveryMajorityMeets(Group(next), Group(prev))
  {
    var elected := Elected(prev, datanodes, expected, nnPort, online);
    var next := Applied(elected);
    ElectedFit(prev, datanodes, expected, nnPort, online);
    AppliedFit(elected, datanodes, expected, nnPort);
    AnsweringStay(prev, datanodes, expected, nnPort, online);
    SubsetSize(Answering(online, prev), Group(prev) * Group(next));
    ChangeMeansMajority(prev, next);
    ChangeKeepsQuorums(prev, next);
  }

  /** Over a whole run of elections from the start: a further round in which more than half of the expected
      number answer keeps the quorums, whatever happened in the rounds before. */
  lemma {:induction false} EveryElectionKeepsQuorums(datanodes: seq<Node>, expected: nat, nnPort: int, rounds: seq<Endpoints>, online: Endpoints)
    requires Distinct(datanodes)
    requires 2 * |Answering(online, Run(datanodes, expected, nnPort, rounds))| > expected
    ensures var prev, next := Run(datanodes, expected, nnPort, rounds), Run(datanodes, expected, nnPort, rounds + [online]);
            TakesChange(prev, next) && EveryMajorityMeets(Group(next), Group(prev))
  {
    var prev := Run(datanodes, expected, nnPort, rounds);
    EveryElectionFits(datanodes, expected, nnPort, rounds);
    ElectionKeepsQuorums(prev, datanodes, expected, nnPort, online);
    assert (rounds + [online])[..|rounds|] == rounds;
    var ip :| ip in Answering(online, prev);
    var i :| 0 <= i < |prev| && (prev[i].ip, prev[i].port) in online && prev[i].ip == ip;
    ElectedKeeps(prev, datanodes, expected, nnPort, online, i);
  }

  // ----- the server -----

  datatype Reaction = Started | Stopped | ChangedPeers | ResetPeers | Nothing

  /** std::find by address. */
  method Find(ns: seq<Node>, ip: string) returns (found: bool)
    ensures found <==> Has(ns, ip)
  {
    for i := 0 to |ns|
      invariant forall k | 0 <= k < i :: ns[k].ip != ip
    {
      if ns[i].ip == ip {
        return true;
      }
    }
    return false;
  }

  class Server {
    const myIp: string
    /** Whether there is a namenode, and the peers it was last given. */
    var running: bool
    var peers: seq<Node>

    constructor (myIp: string)
      ensures this.myIp == myIp && !running && peers == []
    {
      this.myIp := myIp;
      running := false;
      peers := [];
    }

    /** change_namenodes_list. */
    method ChangeNamenodesList(next: seq<Node>) returns (reaction: Reaction)
      modifies `peers
      ensures peers == next
      ensures reaction == if TakesChange(old(peers), next) then ChangedPeers else ResetPeers
    {
      var prev := peers;
      var alive := 0;
      for j := 0 to |prev|
        invariant alive == Staying(prev, next, j)
      {
        var found := Find(next, prev[j].ip);
        if found {
          alive := alive + 1;
        }
      }
      if alive > |next| / 2 {
        reaction := ChangedPeers;
      } else {
        reaction := ResetPeers;
      }
      peers := next;
    }

    /** on_namenodes_change: afterwards a namenode runs here exactly if this server is listed, and it has
        the whole list as its peers. */
    method OnNamenodesChange(next: seq<Node>) returns (reaction: Reaction)
      modifies `peers, `running
      ensures running <==> Has(next, myIp)
      ensures peers == if running then next else if old(running) then [] else old(peers)
      ensures reaction == if Has(next, myIp)
                          then (if !old(running) then Started else if TakesChange(old(peers), next) then ChangedPeers else ResetPeers)
                          else if old(running) then Stopped else Nothing
    {
      var found := Find(next, myIp);
      if found {
        if running {
          reaction := ChangeNamenodesList(next);
          return;
        }
        peers := next;
        running := true;
        return Started;
      }
      if running {
        running := false;
        peers := [];
        return Stopped;
      }
      return Nothing;
    }
  }

  // ----- a server that follows the elections -----

  /** The elections' parameters, and the server's own address. */
  datatype Setting = Setting(datanodes: seq<Node>, expected: nat, nnPort: int, myIp: string)

  ghost function ListAfter(g: Setting, rounds: seq<Endpoints>): seq<Node> { Run(g.datanodes, g.expected, g.nnPort, rounds) }

  /** While more than half of the expected number answer, a listed member of a running group is told to
      change its peers. */
  ghost predicate Reacts(g: Setting, rounds: seq<Endpoints>, online: Endpoints, reaction: Reaction) {
    var prev, next := ListAfter(g, rounds), ListAfter(g, rounds + [online]);
    Has(prev, g.myIp) && Has(next, g.myIp) && 2 * |Answering(online, prev)| > g.expected ==> reaction == ChangedPeers
  }

  /** So it is in every round. */
  ghost predicate AlwaysReacts(g: Setting, rounds: seq<Endpoints>, reactions: seq<Reaction>) {
    && |reactions| == |rounds|
    && (rounds != [] ==>
          && AlwaysReacts(g, rounds[..|rounds| - 1], reactions[..|rounds| - 1])
          && Reacts(g, rounds[..|rounds| - 1], rounds[|rounds| - 1], reactions[|rounds| - 1]))
  }

  lemma {:induction false} AlwaysReactsAt(g: Setting, rounds: seq<Endpoints>, reactions: seq<Reaction>, i: nat)
    requires AlwaysReacts(g, rounds, reactions) && i < |rounds|
    ensures Reacts(g, rounds[..i], rounds[i], reactions[i])
  {
    if i < |rounds| - 1 {
      assert rounds[..|rounds| - 1][..i] == rounds[..i];
      AlwaysReactsAt(g, rounds[..|rounds| - 1], reactions[..|rounds| - 1], i);
    }
  }

  lemma {:induction false} AlwaysReactsSnoc(g: Setting, rounds: seq<Endpoints>, reactions: seq<Reaction>, online: Endpoints, reaction: Reaction)
    requires AlwaysReacts(g, rounds, reactions) && Reacts(g, rounds, online, reaction)
    ensures AlwaysReacts(g, rounds + [online], reactions + [reaction])
  {
    assert (rounds + [online])[..|rounds|] == rounds && (reactions + [reaction])[..|rounds|] == reactions;
  }

  ghost predicate InStep(s: Server, namenodes: seq<Node>)
    reads s
  {
    (s.running <==> Has(namenodes, s.myIp)) && (s.running ==> s.peers == namenodes)
  }

  /** One election, its application, and the server's reaction if there was a proposal. */
  method FollowRound(dn: RaftDN, s: Server, ghost g: Setting, ghost rounds: seq<Endpoints>, online: Endpoints) returns (reaction: Reaction)
    requires g == Setting(dn.datanodes, dn.expected, dn.nnPort, s.myIp) && Distinct(g.datanodes)
    requires dn.namenodes == ListAfter(g, rounds) && InStep(s, dn.namenodes)
    modifies dn`namenodes, s`running, s`peers
    ensures dn.namenodes == ListAfter(g, rounds + [online]) && InStep(s, dn.namenodes)
    ensures Reacts(g, rounds, online, reaction)
  {
    assert (rounds + [online])[..|rounds|] == rounds;
    ghost var prev := dn.namenodes;
    if 2 * |Answering(online, prev)| > dn.expected {
      EveryElectionKeepsQuorums(dn.datanodes, dn.expected, dn.nnPort, rounds, online);
      AnsweringElects(prev, dn.datanodes, dn.expected, dn.nnPort, online);
    }
    var r := dn.Round(online);
    if r.Err? {
      return Nothing;
    }
    reaction := s.OnNamenodesChange(dn.namenodes);
  }

  lemma {:induction false} AnsweringElects(prev: seq<Node>, datanodes: seq<Node>, expected: nat, nnPort: int, online: Endpoints)
    requires |Answering(online, prev)| > 0
    ensures Elected(prev, datanodes, expected, nnPort, online) != []
  {
    var ip :| ip in Answering(online, prev);
    var i :| 0 <= i < |prev| && (prev[i].ip, prev[i].port) in online && prev[i].ip == ip;
    ElectedKeeps(prev, datanodes, expected, nnPort, online, i);
  }

  /** A server that follows a whole run of elections from the start runs a namenode exactly while it is listed,
      always with the whole list as its peers, and is never reset while more than half of the expected number answer. */
  method Follow(dn: RaftDN, s: Server, rounds: seq<Endpoints>) returns (reactions: seq<Reaction>)
    requires Distinct(dn.datanodes) && dn.namenodes == [] && !s.running
    modifies dn`namenodes, s`running, s`peers
    ensures var g := Setting(dn.datanodes, dn.expected, dn.nnPort, s.myIp);
            dn.namenodes == ListAfter(g, rounds) && InStep(s, dn.namenodes) && AlwaysReacts(g, rounds, reactions)
  {
    ghost var g := Setting(dn.datanodes, dn.expected, dn.nnPort, s.myIp);
    reactions := [];
    for n := 0 to |rounds|
      invariant dn.namenodes == ListAfter(g, rounds[..n]) && InStep(s, dn.namenodes)
      invariant AlwaysReacts(g, rounds[..n], reactions)
    {
      assert rounds[..n + 1] == rounds[..n] + [rounds[n]];
      var reaction := FollowRound(dn, s, g, rounds[..n], rounds[n]);
      assert AlwaysReacts(g, rounds[..n + 1], reactions + [reaction]) by {
        AlwaysReactsSnoc(g, rounds[..n], reactions, rounds[n], reaction);
      }
      reactions := reactions + [reaction];
    }
    assert rounds[..|rounds|] == rounds;
  }
}
