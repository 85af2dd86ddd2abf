/** A block's fragment list as text: "node|hash" entries, separated by commas. */
module FragmentText {
  import opened Results
  import opened Text
  import NodeText

  /** Where a fragment is stored and the hash it is stored under. */
  datatype Placed = Placed(node: string, hash: string)

  /** One entry; the node text goes through the node type, which fills in a missing port. */
  function PrintEntry(p: Placed): Result<string, TextError> {
    match NodeText.FromText(p.node)
    case Err(e) => Err(e)
    case Ok(n) => Ok(NodeText.Print(n) + "|" + p.hash)
  }

  function PrintEntries(ps: seq<Placed>): (rs: seq<Result<string, TextError>>)
    ensures |rs| == |ps| && forall i | 0 <= i < |ps| :: rs[i] == PrintEntry(ps[i])
  {
    seq(|ps|, i requires 0 <= i < |ps| => PrintEntry(ps[i]))
  }

  function EncodeOneSub(ps: seq<Placed>): Result<string, TextError>
    requires ps != []
  {
    match Collect(PrintEntries(ps))
    case Err(e) => Err(e)
    case Ok(entries) => Ok(Join(entries, ','))
  }

  method EncodeFragments(ps: seq<Placed>) returns (r: Result<string, TextError>)
    requires ps != []
    ensures r == EncodeOneSub(ps)
  {
    ghost var rs := PrintEntries(ps);
    ghost var printed := [];
    var res := "";
    for i := 0 to |ps|
      invariant Collect(rs[..i]) == Ok(printed) && res == Terminated(printed, ',')
    {
      CollectStep(rs, i, printed);
      var entry := PrintEntry(ps[i]);
      if entry.Err? {
        return Err(entry.error);
      }
      TerminatedSnoc(printed, entry.value, ',');
      res := res + entry.value + ",";
      printed := printed + [entry.value];
    }
    assert rs[..|ps|] == rs;
    return Ok(res[..|res| - 1]);
  }

  /** Two `getline(ss, field, '|')` on one entry: whatever follows a second bar is dropped. */
  function ParseEntry(s: string): Placed {
    var i := IndexOf(s, '|');
    var rest := if i < |s| then s[i + 1..] else "";
    Placed(s[..i], rest[..IndexOf(rest, '|')])
  }

  function ParseEntries(lines: seq<string>, n: nat): (ps: seq<Placed>)
    requires n <= |lines|
    ensures |ps| == n
  {
    if n == 0 then [] else ParseEntries(lines, n - 1) + [ParseEntry(lines[n - 1])]
  }

  lemma {:induction false} ParseEntriesAt(lines: seq<string>, n: nat, i: nat)
    requires i < n <= |lines|
    ensures ParseEntries(lines, n)[i] == ParseEntry(lines[i])
  {
    var before := ParseEntries(lines, n - 1);
    assert ParseEntries(lines, n) == before + [ParseEntry(lines[n - 1])];
    if i < n - 1 {
      assert before[i] == ParseEntry(lines[i]) by { ParseEntriesAt(lines, n - 1, i); }
    }
  }

  function DecodeOneSub(s: string): seq<Placed> {
    var lines := Lines(s, ',');
    ParseEntries(lines, |lines|)
  }

  method DecodeFragments(s: string) returns (res: seq<Placed>)
    ensures res == DecodeOneSub(s)
  {
    var lines := Lines(s, ',');
    res := [];
    for i := 0 to |lines|
      invariant res == ParseEntries(lines, i)
    {
      res := res + [ParseEntry(lines[i])];
    }
  }

  // ----- round trip -----

  /** A node text in the form the node printer produces. */
  ghost predicate Canonical(text: string) {
    exists n: NodeText.Node :: NodeText.Plain(n) && Free(n.ip, '|') && text == NodeText.Print(n)
  }

  ghost predicate Storable(p: Placed) {
    Canonical(p.node) && Free(p.hash, ',') && Free(p.hash, '|')
  }

  ghost predicate AllStorable(ps: seq<Placed>) { forall i | 0 <= i < |ps| :: Storable(ps[i]) }

  lemma {:induction false} CanonicalText(text: string)
    requires Canonical(text)
    ensures NodeText.FromText(text).Ok? && NodeText.Print(NodeText.FromText(text).value) == text
    ensures Free(text, '|') && Free(text, ',')
  {
    var n: NodeText.Node :| NodeText.Plain(n) && Free(n.ip, '|') && text == NodeText.Print(n);
    NodeText.ParseOfPrintIff(n, NodeText.Node(text, 0, NodeText.Unknown));
    NodeText.PrintedFree(n);
    ItoaFree(n.port, '|');
  }

  lemma {:induction false} ParseEntryOf(node: string, hash: string)
    requires Free(node, '|') && Free(hash, '|')
    ensures ParseEntry(node + "|" + hash) == Placed(node, hash)
  {
    var s := node + "|" + hash;
    assert s == node + ['|'] + hash;
    IndexOfAppended(node, '|', hash);
    IndexOfAppended(hash, '|', "");
    assert s[..|node|] == node && s[|node| + 1..] == hash && hash[..|hash|] == hash;
  }

  lemma {:induction false} EntryRoundTrip(p: Placed)
    requires Storable(p)
    ensures PrintEntry(p) == Ok(p.node + "|" + p.hash)
    ensures ParseEntry(p.node + "|" + p.hash) == p
    ensures Free(p.node + "|" + p.hash, ',')
  {
    CanonicalText(p.node);
    ParseEntryOf(p.node, p.hash);
  }

  function EntryText(p: Placed): string { p.node + "|" + p.hash }

  function EntryTexts(ps: seq<Placed>): (texts: seq<string>)
    ensures |texts| == |ps| && forall i | 0 <= i < |ps| :: texts[i] == EntryText(ps[i])
  {
    seq(|ps|, i requires 0 <= i < |ps| => EntryText(ps[i]))
  }

  lemma {:induction false} EntriesRoundTrip(ps: seq<Placed>)
    requires AllStorable(ps)
    ensures Collect(PrintEntries(ps)) == Ok(EntryTexts(ps))
  {
    var rs, texts := PrintEntries(ps), EntryTexts(ps);
    forall i | 0 <= i < |ps| ensures rs[i] == Ok(texts[i]) {
      EntryRoundTrip(ps[i]);
    }
    CollectAllOk(rs, texts);
  }

  /** The fragment list read back from its text is the one that was written. */
  lemma {:induction false} FragmentListRoundTrip(ps: seq<Placed>)
    requires ps != [] && AllStorable(ps)
    ensures EncodeOneSub(ps).Ok?
    ensures DecodeOneSub(EncodeOneSub(ps).value) == ps
  {
    EntriesRoundTrip(ps);
    var entries := EntryTexts(ps);
    forall i | 0 <= i < |ps| ensures Free(entries[i], ',') && entries[i] != "" {
      EntryRoundTrip(ps[i]);
    }
    LinesOfJoin(entries, ',');
    var read := ParseEntries(entries, |entries|);
    forall i | 0 <= i < |ps| ensures read[i] == ps[i] {
      ParseEntriesAt(entries, |entries|, i);
      EntryRoundTrip(ps[i]);
    }
    assert read == ps;
  }

  // ----- the text itself -----

  /** The entries "node|hash", separated by commas. */
  lemma {:induction false} FragmentListText(ps: seq<Placed>)
    requires ps != [] && AllStorable(ps)
    ensures EncodeOneSub(ps) == Ok(Join(EntryTexts(ps), ','))
  {
    EntriesRoundTrip(ps);
  }

  /** A node text without a port is stored with port 0. */
  lemma {:induction false} MissingPortIsZero(ip: string, hash: string)
    requires Free(ip, ':')
    ensures PrintEntry(Placed(ip, hash)) == Ok(ip + ":" + "0" + "|" + hash)
  {
    NodeText.ParseWithoutPort(ip, NodeText.Node(ip, 0, NodeText.Unknown));
    assert Decimal(0) == "0";
  }

  /** Whatever follows a second bar is dropped, and without a bar there is no hash. */
  lemma {:induction false} RestIsDropped(node: string, hash: string, rest: string)
    requires Free(node, '|') && Free(hash, '|')
    ensures ParseEntry(node + "|" + hash + "|" + rest) == Placed(node, hash)
    ensures ParseEntry(node) == Placed(node, "")
  {
    var s := node + "|" + hash + "|" + rest;
    var tail := hash + ['|'] + rest;
    assert s == node + ['|'] + tail;
    IndexOfAppended(node, '|', tail);
    IndexOfAppended(hash, '|', rest);
    assert s[..|node|] == node && s[|node| + 1..] == tail && tail[..|hash|] == hash;
    assert node[..|node|] == node;
  }

  /** A comma at the end starts no further entry. */
  lemma {:induction false} FinalCommaIsIgnored(ps: seq<Placed>)
    requires ps != [] && AllStorable(ps)
    ensures DecodeOneSub(Join(EntryTexts(ps), ',') + ",") == ps
  {
    var entries := EntryTexts(ps);
    forall i | 0 <= i < |ps| ensures Free(entries[i], ',') {
      EntryRoundTrip(ps[i]);
    }
    LinesOfTerminated(entries, ',');
    var read := ParseEntries(entries, |entries|);
    forall i | 0 <= i < |ps| ensures read[i] == ps[i] {
      ParseEntriesAt(entries, |entries|, i);
      EntryRoundTrip(ps[i]);
    }
    assert read == ps;
  }
}
