/** Cluster nodes and their "ip:port" text, alone and in comma-separated lists. */
module NodeText {
  import opened Results
  import opened Text

  datatype NodeStatus = Online | Offline | Unknown

  datatype Node = Node(ip: string, port: int, status: NodeStatus)

  function Print(n: Node): string { n.ip + ":" + Itoa(n.port) }

  function AddressText(text: string): string { text[..IndexOf(text, ':')] }

  /** What follows the first colon, up to the end of the line. */
  function PortText(text: string): string {
    var i := IndexOf(text, ':');
    var rest := if i < |text| then text[i + 1..] else "";
    rest[..IndexOf(rest, '\n')]
  }

  /** `from_string(text, node)`: the address up to the first colon; the port only if some text
      follows it, otherwise the port `node` had before. */
  function Parse(text: string, node: Node): Result<Node, TextError> {
    if PortText(text) == "" then Ok(node.(ip := AddressText(text))) else
      match Stoi(PortText(text))
      case Err(e) => Err(e)
      case Ok(p) => Ok(node.(ip := AddressText(text), port := p))
  }

  /** The implicit conversion of a text to a node. */
  function FromText(text: string): Result<Node, TextError> {
    Parse(text, Node(text, 0, Unknown))
  }

  /** Parsing gives back address and port exactly when the address holds no colon. */
  lemma {:induction false} ParseOfPrintIff(n: Node, before: Node)
    requires IsInt(n.port)
    ensures Parse(Print(n), before) == Ok(before.(ip := n.ip, port := n.port)) <==> Free(n.ip, ':')
  {
    if Free(n.ip, ':') {
      var text := Print(n);
      var port := Itoa(n.port);
      assert text == n.ip + [':'] + port;
      IndexOfAppended(n.ip, ':', port);
      assert text[..|n.ip|] == n.ip && text[|n.ip| + 1..] == port;
      ItoaFree(n.port, '\n');
      IndexOfAppended(port, '\n', "");
      assert port[..|port|] == port;
      StoiOfItoa(n.port);
    }
  }

  // ----- lists -----

  function Printed(ns: seq<Node>): (texts: seq<string>)
    ensures |texts| == |ns| && forall i | 0 <= i < |ns| :: texts[i] == Print(ns[i])
  {
    seq(|ns|, i requires 0 <= i < |ns| => Print(ns[i]))
  }

  lemma {:induction false} PrintedSnoc(init: seq<Node>, last: Node)
    ensures Printed(init + [last]) == Printed(init) + [Print(last)]
  {
  }

  /** The list printer: every node followed by a comma, and the last comma taken off again. */
  method PrintList(ns: seq<Node>) returns (s: string)
    requires ns != []
    ensures s == Join(Printed(ns), ',')
  {
    var oss := "";
    ghost var printed: seq<string> := [];
    for i := 0 to |ns|
      invariant printed == Printed(ns[..i]) && oss == Terminated(printed, ',')
    {
      assert ns[..i + 1] == ns[..i] + [ns[i]];
      PrintedSnoc(ns[..i], ns[i]);
      TerminatedSnoc(printed, Print(ns[i]), ',');
      oss := oss + Print(ns[i]) + ",";
      printed := printed + [Print(ns[i])];
    }
    assert ns[..|ns|] == ns;
    s := oss[..|oss| - 1];
  }

  /** The node variable the tokens are parsed into: the last node read, or a new one. */
  function Current(read: seq<Node>): Node {
    if read == [] then Node("", 0, Unknown) else read[|read| - 1]
  }

  /** The tokens in turn, each parsed over what the previous one left in the variable. */
  function ParseTokens(tokens: seq<string>): (r: Result<seq<Node>, TextError>)
    ensures r.Ok? ==> |r.value| == |tokens|
  {
    if tokens == [] then Ok([]) else
      match ParseTokens(tokens[..|tokens| - 1])
      case Err(e) => Err(e)
      case Ok(read) =>
        match Parse(tokens[|tokens| - 1], Current(read))
        case Err(e) => Err(e)
        case Ok(n) => Ok(read + [n])
  }

  function ParseList(s: string): Result<seq<Node>, TextError> { ParseTokens(Lines(s, ',')) }

  lemma {:induction false} ParseErrorSticks(tokens: seq<string>, n: nat)
    requires n <= |tokens| && ParseTokens(tokens[..n]).Err?
    ensures ParseTokens(tokens) == ParseTokens(tokens[..n])
  {
    if n == |tokens| {
      assert tokens[..n] == tokens;
    } else {
      assert tokens[..|tokens| - 1][..n] == tokens[..n];
      ParseErrorSticks(tokens[..|tokens| - 1], n);
    }
  }

  method ParseNodes(s: string) returns (r: Result<seq<Node>, TextError>)
    ensures r == ParseList(s)
  {
    var tokens := Lines(s, ',');
    var res: seq<Node> := [];
    var node := Node("", 0, Unknown);
    for i := 0 to |tokens|
      invariant ParseTokens(tokens[..i]) == Ok(res) && node == Current(res)
    {
      assert tokens[..i + 1][..i] == tokens[..i];
      var parsed := Parse(tokens[i], node);
      if parsed.Err? {
        ParseErrorSticks(tokens, i + 1);
        return Err(parsed.error);
      }
      node := parsed.value;
      res := res + [node];
    }
    assert tokens[..|tokens|] == tokens;
    return Ok(res);
  }

  function Fresh(ns: seq<Node>): (fs: seq<Node>)
    ensures |fs| == |ns| && forall i | 0 <= i < |ns| :: fs[i] == ns[i].(status := Unknown)
  {
    seq(|ns|, i requires 0 <= i < |ns| => ns[i].(status := Unknown))
  }

  predicate Plain(n: Node) { IsInt(n.port) && Free(n.ip, ':') && Free(n.ip, ',') }

  ghost predicate AllPlain(ns: seq<Node>) { forall i | 0 <= i < |ns| :: Plain(ns[i]) }

  lemma {:induction false} ParseTokensSnoc(tokens: seq<string>, token: string, read: seq<Node>, n: Node)
    requires ParseTokens(tokens) == Ok(read) && Parse(token, Current(read)) == Ok(n)
    ensures ParseTokens(tokens + [token]) == Ok(read + [n])
  {
    assert (tokens + [token])[..|tokens|] == tokens;
  }

  lemma {:induction false} FreshSnoc(init: seq<Node>, last: Node)
    ensures Fresh(init + [last]) == Fresh(init) + [last.(status := Unknown)]
    ensures Current(Fresh(init)).status == Unknown
  {
  }

  lemma {:induction false} TokensRoundTrip(ns: seq<Node>)
    requires AllPlain(ns)
    ensures ParseTokens(Printed(ns)) == Ok(Fresh(ns))
  {
    if ns != [] {
      var init, last := ns[..|ns| - 1], ns[|ns| - 1];
      assert ns == init + [last];
      FreshSnoc(init, last);
      PrintedSnoc(init, last);
      TokensRoundTrip(init);
      ParseOfPrintIff(last, Current(Fresh(init)));
      ParseTokensSnoc(Printed(init), Print(last), Fresh(init), last.(status := Unknown));
    }
  }

  lemma {:induction false} PrintedFree(n: Node)
    requires Plain(n)
    ensures Free(Print(n), ',') && Print(n) != ""
  {
    ItoaFree(n.port, ',');
  }

  /** The list parser undoes the list printer on addresses and ports. */
  lemma {:induction false} ListRoundTrip(ns: seq<Node>)
    requires ns != [] && AllPlain(ns)
    ensures ParseList(Join(Printed(ns), ',')) == Ok(Fresh(ns))
  {
    forall i | 0 <= i < |ns| ensures Free(Printed(ns)[i], ',') && Printed(ns)[i] != "" {
      PrintedFree(ns[i]);
    }
    LinesOfJoin(Printed(ns), ',');
    TokensRoundTrip(ns);
  }

  lemma {:induction false} ParseWithoutPort(ip: string, node: Node)
    requires Free(ip, ':')
    ensures Parse(ip, node) == Ok(node.(ip := ip))
  {
    IndexOfAppended(ip, ':', "");
    assert ip[..|ip|] == ip;
  }

  /** A token without a port takes the port of the token before it. */
  lemma {:induction false} PortIsInherited(ns: seq<Node>, ip: string)
    requires ns != [] && AllPlain(ns) && Free(ip, ':') && Free(ip, ',') && ip != ""
    ensures ParseList(Join(Printed(ns), ',') + "," + ip) == Ok(Fresh(ns) + [Node(ip, ns[|ns| - 1].port, Unknown)])
  {
    var tokens := Printed(ns) + [ip];
    JoinSnoc(Printed(ns), ip, ',');
    forall i | 0 <= i < |tokens| ensures Free(tokens[i], ',') {
      if i < |ns| { PrintedFree(ns[i]); }
    }
    LinesOfJoin(tokens, ',');
    TokensRoundTrip(ns);
    ParseWithoutPort(ip, Current(Fresh(ns)));
    ParseTokensSnoc(Printed(ns), ip, Fresh(ns), Node(ip, ns[|ns| - 1].port, Unknown));
  }

  // ----- when the reused variable shows -----

  const NEW: Node := Node("", 0, Unknown)

  /** Each token parsed into a node of its own. */
  function ParseEach(tokens: seq<string>): (r: Result<seq<Node>, TextError>)
    ensures r.Ok? ==> |r.value| == |tokens|
  {
    if tokens == [] then Ok([]) else
      match ParseEach(tokens[..|tokens| - 1])
      case Err(e) => Err(e)
      case Ok(read) =>
        match Parse(tokens[|tokens| - 1], NEW)
        case Err(e) => Err(e)
        case Ok(n) => Ok(read + [n])
  }

  /** Some token has no port, and the one before it was read with a port other than 0. */
  predicate Inherits(tokens: seq<string>, nodes: seq<Node>)
    requires |nodes| == |tokens|
  {
    tokens != [] &&
    var n := |tokens| - 1;
    Inherits(tokens[..n], nodes[..n]) || (PortText(tokens[n]) == "" && Current(nodes[..n]).port != 0)
  }

  lemma {:induction false} InheritsSnoc(tokens: seq<string>, nodes: seq<Node>, token: string, n: Node)
    requires |nodes| == |tokens|
    ensures Inherits(tokens + [token], nodes + [n]) <==>
              Inherits(tokens, nodes) || (PortText(token) == "" && Current(nodes).port != 0)
  {
    assert (tokens + [token])[..|tokens|] == tokens && (nodes + [n])[..|tokens|] == nodes;
  }

  /** What the variable held before shows in the port only, and only if the token has none. */
  lemma {:induction false} ParseOver(token: string, before: Node)
    requires before.status == Unknown
    ensures Parse(token, before).Err? ==> Parse(token, NEW) == Parse(token, before)
    ensures Parse(token, before).Ok? ==>
              Parse(token, NEW).Ok? && Parse(token, before).value.status == Unknown
    ensures Parse(token, before) == Parse(token, NEW) <==>
              Parse(token, before).Err? || PortText(token) != "" || before.port == 0
  {
  }

  lemma {:induction false} OneMoreToken(tokens: seq<string>, read: seq<Node>, each: seq<Node>, token: string, n: Node, m: Node)
    requires |tokens| == |read| && (each == read <==> !Inherits(tokens, read))
    requires m == n <==> PortText(token) != "" || Current(read).port == 0
    ensures each + [m] == read + [n] <==> !Inherits(tokens + [token], read + [n])
  {
    InheritsSnoc(tokens, read, token, n);
    LastTwo(each, m, read, n);
  }

  /** One step of both parsers. */
  lemma {:induction false} ParseStep(init: seq<string>, token: string)
    ensures ParseTokens(init).Err? ==> ParseTokens(init + [token]) == ParseTokens(init)
    ensures ParseEach(init).Err? ==> ParseEach(init + [token]) == ParseEach(init)
    ensures ParseTokens(init).Ok? ==>
              var parsed := Parse(token, Current(ParseTokens(init).value));
              ParseTokens(init + [token]) == if parsed.Ok? then Ok(ParseTokens(init).value + [parsed.value]) else Err(parsed.error)
    ensures ParseEach(init).Ok? ==>
              var parsed := Parse(token, NEW);
              ParseEach(init + [token]) == if parsed.Ok? then Ok(ParseEach(init).value + [parsed.value]) else Err(parsed.error)
  {
    assert (init + [token])[..|init|] == init;
  }

  lemma {:induction false} TokensVsEach(tokens: seq<string>)
    ensures ParseTokens(tokens).Err? ==> ParseEach(tokens) == ParseTokens(tokens)
    ensures ParseTokens(tokens).Ok? ==>
              && ParseEach(tokens).Ok? && Current(ParseTokens(tokens).value).status == Unknown
              && (ParseEach(tokens).value == ParseTokens(tokens).value <==> !Inherits(tokens, ParseTokens(tokens).value))
  {
    if tokens != [] {
      var init, token := tokens[..|tokens| - 1], tokens[|tokens| - 1];
      assert tokens == init + [token];
      TokensVsEach(init);
      ParseStep(init, token);
      if ParseTokens(init).Ok? {
        var read, each := ParseTokens(init).value, ParseEach(init).value;
        ParseOver(token, Current(read));
        if Parse(token, Current(read)).Ok? {
          OneMoreToken(init, read, each, token, Parse(token, Current(read)).value, Parse(token, NEW).value);
        }
      }
    }
  }

  lemma {:induction false} LastTwo(a: seq<Node>, m: Node, b: seq<Node>, n: Node)
    ensures a + [m] == b + [n] <==> a == b && m == n
  {
    if a + [m] == b + [n] {
      assert a == (a + [m])[..|a|] && b == (b + [n])[..|b|];
      assert m == (a + [m])[|a|] && n == (b + [n])[|b|];
    }
  }

  /** parse_nodes reads every token as if it stood alone if and only if it fails, or no token without a port
      comes after one that was read with a port other than 0. */
  lemma {:induction false} TokensStandAloneIff(s: string)
    ensures ParseList(s) == ParseEach(Lines(s, ',')) <==>
              ParseList(s).Err? || !Inherits(Lines(s, ','), ParseList(s).value)
  {
    TokensVsEach(Lines(s, ','));
  }
}
