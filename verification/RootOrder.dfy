/** The order of the root's listing: the one thing that replaying a log over old contents can change,
    and exactly when it does. */
module RootOrder {
  import opened Results
  import opened Inodes
  import opened Metadata
  import opened Projection
  import opened Replication
  import StorageText

  // ----- filtering a listing -----

  /** The entries that are not in `xs`, in order. */
  function Drop(s: seq<string>, xs: set<string>): seq<string> {
    if s == [] then [] else
      Drop(s[..|s| - 1], xs) + if s[|s| - 1] in xs then [] else [s[|s| - 1]]
  }

  function Elements(s: seq<string>): set<string> { set x | x in s }

  lemma {:induction false} DropSnoc(s: seq<string>, x: string, xs: set<string>)
    ensures Drop(s + [x], xs) == Drop(s, xs) + if x in xs then [] else [x]
  {
    assert (s + [x])[..|s|] == s;
  }

  lemma {:induction false} DropSum(s: seq<string>, t: seq<string>, xs: set<string>)
    ensures Drop(s + t, xs) == Drop(s, xs) + Drop(t, xs)
  {
    if t == [] {
      assert s + t == s;
    } else {
      var init, x := t[..|t| - 1], t[|t| - 1];
      assert t == init + [x] && s + t == (s + init) + [x];
      DropSum(s, init, xs);
      DropSnoc(s + init, x, xs);
    }
  }

  lemma {:induction false} DropHas(s: seq<string>, xs: set<string>, y: string)
    ensures y in Drop(s, xs) <==> y in s && y !in xs
  {
    if s != [] {
      DropHas(s[..|s| - 1], xs, y);
      assert s == s[..|s| - 1] + [s[|s| - 1]];
    }
  }

  lemma {:induction false} DropTwice(s: seq<string>, xs: set<string>, ys: set<string>)
    ensures Drop(Drop(s, xs), ys) == Drop(s, xs + ys)
  {
    if s != [] {
      var init, x := s[..|s| - 1], s[|s| - 1];
      DropTwice(init, xs, ys);
      if x in xs {
        assert Drop(s, xs) == Drop(init, xs);
      } else {
        DropSnoc(Drop(init, xs), x, ys);
      }
    }
  }

  /** Only membership of the listed names matters. */
  lemma {:induction false} DropAlike(s: seq<string>, xs: set<string>, ys: set<string>)
    requires forall x | x in s :: x in xs <==> x in ys
    ensures Drop(s, xs) == Drop(s, ys)
  {
    if s != [] {
      assert s == s[..|s| - 1] + [s[|s| - 1]];
      DropAlike(s[..|s| - 1], xs, ys);
    }
  }

  lemma {:induction false} DropNone(s: seq<string>, xs: set<string>)
    requires forall x | x in s :: x !in xs
    ensures Drop(s, xs) == s
  {
    if s != [] {
      assert s == s[..|s| - 1] + [s[|s| - 1]];
      DropNone(s[..|s| - 1], xs);
    }
  }

  lemma {:induction false} DropAll(s: seq<string>, xs: set<string>)
    requires forall x | x in s :: x in xs
    ensures Drop(s, xs) == []
  {
    if s != [] {
      assert s == s[..|s| - 1] + [s[|s| - 1]];
      DropAll(s[..|s| - 1], xs);
    }
  }

  lemma {:induction false} WithoutIsDrop(s: seq<string>, x: string)
    ensures Without(s, x) == Drop(s, {x})
  {
    if s != [] {
      WithoutIsDrop(s[1..], x);
      assert s == [s[0]] + s[1..];
      DropSum([s[0]], s[1..], {x});
      assert Drop([s[0]], {x}) == if s[0] == x then [] else [s[0]] by { DropSnoc([], s[0], {x}); }
    }
  }

  // ----- a log's effect on the root's listing -----

  function Stepped(e: Entry, sub: seq<string>): seq<string> { if Edits(e, ROOT) then Edited(e, sub) else sub }

  /** The listing after a log that never targets the root itself. */
  function ListingAfter(log: seq<Entry>, sub: seq<string>): seq<string> {
    if log == [] then sub else Stepped(log[|log| - 1], ListingAfter(log[..|log| - 1], sub))
  }

  /** The names that a log takes out of the root's listing. */
  function RemovedNames(log: seq<Entry>): set<string> {
    if log == [] then {} else
      RemovedNames(log[..|log| - 1]) +
      if Edits(log[|log| - 1], ROOT) && log[|log| - 1].op == OpRm then {Filename(log[|log| - 1].inode)} else {}
  }

  /** The names of `sub` that stay where they are, because nothing removes them. */
  function Staying(sub: seq<string>, removed: set<string>): set<string> { Elements(sub) - removed }

  lemma {:induction false} FormulaAdd(sub: seq<string>, removed: set<string>, c: seq<string>, x: string)
    ensures With(Drop(sub, removed) + Drop(c, Staying(sub, removed)), x) ==
            Drop(sub, removed) + Drop(With(c, x), Staying(sub, removed))
  {
    var stay := Staying(sub, removed);
    DropHas(sub, removed, x);
    DropHas(c, stay, x);
    if x !in c {
      DropSnoc(c, x, stay);
    }
  }

  lemma {:induction false} FormulaRemove(sub: seq<string>, removed: set<string>, c: seq<string>, x: string)
    ensures Without(Drop(sub, removed) + Drop(c, Staying(sub, removed)), x) ==
            Drop(sub, removed + {x}) + Drop(Without(c, x), Staying(sub, removed + {x}))
  {
    var stay := Staying(sub, removed);
    WithoutIsDrop(Drop(sub, removed) + Drop(c, stay), x);
    DropSum(Drop(sub, removed), Drop(c, stay), {x});
    DropTwice(sub, removed, {x});
    DropTwice(c, stay, {x});
    WithoutIsDrop(c, x);
    DropTwice(c, {x}, Staying(sub, removed + {x}));
    assert stay + {x} == {x} + Staying(sub, removed + {x});
  }

  /** Replayed over any listing, a log keeps the names it never removes in front, in their old order; the
      others follow in the order that the log alone gives them. */
  lemma {:induction false} ReplayFormula(log: seq<Entry>, sub: seq<string>)
    ensures ListingAfter(log, sub) ==
            Drop(sub, RemovedNames(log)) + Drop(ListingAfter(log, []), Staying(sub, RemovedNames(log)))
  {
    if log == [] {
      DropNone(sub, {});
    } else {
      var init, e := log[..|log| - 1], log[|log| - 1];
      ReplayFormula(init, sub);
      if Edits(e, ROOT) && e.op == OpRm {
        FormulaRemove(sub, RemovedNames(init), ListingAfter(init, []), Filename(e.inode));
      } else {
        assert RemovedNames(log) == RemovedNames(init);
        FormulaAdd(sub, RemovedNames(init), ListingAfter(init, []), Filename(e.inode));
      }
    }
  }

  // ----- when the order survives -----

  /** A removed name stands before one that is never removed. */
  ghost predicate Inverted(s: seq<string>, removed: set<string>) {
    exists i, j :: 0 <= i < j < |s| && s[i] in removed && s[j] !in removed
  }

  /** The beginning of a list without inversions has none, and if the list ends in a name that is
      never removed, no name in it is. */
  lemma {:induction false} NotInvertedSnoc(init: seq<string>, x: string, removed: set<string>)
    requires !Inverted(init + [x], removed)
    ensures !Inverted(init, removed)
    ensures x !in removed ==> forall i | 0 <= i < |init| :: init[i] !in removed
  {
    var s := init + [x];
    assert s[|init|] == x;
    assert forall i | 0 <= i < |init| :: s[i] == init[i];
  }

  /** Never removed names first, the others after them: nothing moves if and only if nothing is inverted. */
  lemma {:induction false} PartitionIff(s: seq<string>, removed: set<string>, stay: set<string>)
    requires forall x | x in s :: x in stay <==> x !in removed
    ensures Drop(s, removed) + Drop(s, stay) == s <==> !Inverted(s, removed)
  {
    if Inverted(s, removed) {
      InvertedMoves(s, removed, stay);
    } else {
      OrderedStays(s, removed, stay);
    }
  }

  lemma {:induction false} InvertedMoves(s: seq<string>, removed: set<string>, stay: set<string>)
    requires (forall x | x in s :: x in stay <==> x !in removed) && Inverted(s, removed)
    ensures Drop(s, removed) + Drop(s, stay) != s
  {
    var front, back := Drop(s, removed), Drop(s, stay);
    forall x | x in front ensures x !in removed { DropHas(s, removed, x); }
    forall x | x in back ensures x in removed { DropHas(s, stay, x); }
    SumNotInverted(front, back, removed);
  }

  lemma {:induction false} SumNotInverted(front: seq<string>, back: seq<string>, removed: set<string>)
    requires (forall x | x in front :: x !in removed) && (forall x | x in back :: x in removed)
    ensures !Inverted(front + back, removed)
  {
    var s := front + back;
    forall i, j | 0 <= i < j < |s| && s[i] in removed ensures s[j] in removed {
      assert i >= |front|;
      assert s[j] == back[j - |front|];
    }
  }

  lemma {:induction false} RemovedGoesLast(init: seq<string>, x: string, removed: set<string>, stay: set<string>)
    requires Drop(init, removed) + Drop(init, stay) == init && x in removed && x !in stay
    ensures Drop(init + [x], removed) + Drop(init + [x], stay) == init + [x]
  {
    DropSnoc(init, x, removed);
    DropSnoc(init, x, stay);
  }

  lemma {:induction false} AllStay(init: seq<string>, x: string, removed: set<string>, stay: set<string>)
    requires forall y | y in init + [x] :: y in stay && y !in removed
    ensures Drop(init + [x], removed) + Drop(init + [x], stay) == init + [x]
  {
    DropNone(init + [x], removed);
    DropAll(init + [x], stay);
  }

  lemma {:induction false} OrderedStays(s: seq<string>, removed: set<string>, stay: set<string>)
    requires (forall x | x in s :: x in stay <==> x !in removed) && !Inverted(s, removed)
    ensures Drop(s, removed) + Drop(s, stay) == s
  {
    if s != [] {
      var init, x := s[..|s| - 1], s[|s| - 1];
      assert s == init + [x];
      NotInvertedSnoc(init, x, removed);
      if x in removed {
        OrderedStays(init, removed, stay);
        RemovedGoesLast(init, x, removed, stay);
      } else {
        AllStay(init, x, removed, stay);
      }
    }
  }

  /** Replaying a log over its own result keeps the root's listing if and only if no name it removes
      precedes, in that listing, a name it never removes. */
  lemma {:induction false} OwnReplayIff(log: seq<Entry>)
    ensures ListingAfter(log, ListingAfter(log, [])) == ListingAfter(log, []) <==>
              !Inverted(ListingAfter(log, []), RemovedNames(log))
  {
    var c, removed := ListingAfter(log, []), RemovedNames(log);
    ReplayFormula(log, c);
    PartitionIff(c, removed, Staying(c, removed));
  }

  // ----- any sequence of partial replays -----

  lemma {:induction false} RemovedPrefix(log: seq<Entry>, n: nat)
    requires n <= |log|
    ensures RemovedNames(log[..n]) <= RemovedNames(log)
  {
    if n == |log| {
      assert log[..n] == log;
    } else {
      assert log[..|log| - 1][..n] == log[..n];
      RemovedPrefix(log[..|log| - 1], n);
    }
  }

  /** The names that are never removed are only ever added at the end. */
  lemma {:induction false} StayingGrow(log: seq<Entry>, n: nat, removed: set<string>)
    requires n <= |log| && RemovedNames(log) <= removed
    ensures Drop(ListingAfter(log[..n], []), removed) <= Drop(ListingAfter(log, []), removed)
  {
    if n == |log| {
      assert log[..n] == log;
    } else {
      var init, e := log[..|log| - 1], log[|log| - 1];
      assert init[..n] == log[..n];
      StayingGrow(init, n, removed);
      StayingStep(e, ListingAfter(init, []), removed);
    }
  }

  lemma {:induction false} StayingStep(e: Entry, c: seq<string>, removed: set<string>)
    requires Edits(e, ROOT) && e.op == OpRm ==> Filename(e.inode) in removed
    ensures Drop(c, removed) <= Drop(Stepped(e, c), removed)
  {
    if Edits(e, ROOT) {
      var x := Filename(e.inode);
      if e.op == OpRm {
        WithoutIsDrop(c, x);
        DropTwice(c, {x}, removed);
        assert {x} + removed == removed;
      } else if x !in c {
        DropSnoc(c, x, removed);
      }
    }
  }

  lemma {:induction false} ListingNoDup(log: seq<Entry>)
    ensures NoDup(ListingAfter(log, []))
  {
    if log != [] {
      var init, e := log[..|log| - 1], log[|log| - 1];
      ListingNoDup(init);
      WithContents(ListingAfter(init, []), Filename(e.inode));
      WithoutContents(ListingAfter(init, []), Filename(e.inode));
    }
  }

  lemma {:induction false} DropNoDup(s: seq<string>, xs: set<string>)
    requires NoDup(s)
    ensures NoDup(Drop(s, xs))
  {
    if s != [] {
      var init, x := s[..|s| - 1], s[|s| - 1];
      DropNoDup(init, xs);
      DropHas(init, xs, x);
    }
  }

  /** Of two beginnings of one list, the longer one is the shorter one and what it adds. */
  lemma {:induction false} PrefixesJoin(k: seq<string>, p: seq<string>, q: seq<string>)
    requires NoDup(k) && p <= k && q <= k
    ensures p + Drop(q, Elements(p)) == if |p| <= |q| then q else p
  {
    if |q| <= |p| {
      forall x | x in q ensures x in p {
        var i :| 0 <= i < |q| && q[i] == x;
        assert p[i] == k[i] == x;
      }
      DropAll(q, Elements(p));
    } else {
      LongerAdds(k, p, q);
    }
  }

  lemma {:induction false} LongerAdds(k: seq<string>, p: seq<string>, q: seq<string>)
    requires NoDup(k) && p <= k && q <= k && |p| < |q|
    ensures p + Drop(q, Elements(p)) == q
  {
    var rest := q[|p|..];
    assert q == p + rest;
    forall x | x in rest ensures x !in p {
      var i :| 0 <= i < |rest| && rest[i] == x;
      NotBefore(k, p, |p| + i);
    }
    RestStays(p, rest);
  }

  lemma {:induction false} NotBefore(k: seq<string>, p: seq<string>, i: nat)
    requires NoDup(k) && p <= k && |p| <= i < |k|
    ensures k[i] !in p
  {
    forall j | 0 <= j < |p| ensures p[j] != k[i] {
      assert p[j] == k[j];
    }
  }

  lemma {:induction false} RestStays(p: seq<string>, rest: seq<string>)
    requires forall x | x in rest :: x !in p
    ensures Drop(p + rest, Elements(p)) == rest
  {
    DropSum(p, rest, Elements(p));
    DropAll(p, Elements(p));
    DropNone(rest, Elements(p));
  }

  /** The never removed names of a listing are a beginning of those of the log's own. */
  ghost predicate Begun(log: seq<Entry>, sub: seq<string>) {
    Drop(sub, RemovedNames(log)) <= Drop(ListingAfter(log, []), RemovedNames(log))
  }

  lemma {:induction false} OwnNamesOf(sub: seq<string>, q: seq<string>, removed: set<string>)
    requires forall x | x in q :: x !in removed
    ensures Drop(q, Staying(sub, removed)) == Drop(q, Elements(Drop(sub, removed)))
  {
    forall x | x in q ensures x in Staying(sub, removed) <==> x in Elements(Drop(sub, removed)) {
      DropHas(sub, removed, x);
    }
    DropAlike(q, Staying(sub, removed), Elements(Drop(sub, removed)));
  }

  lemma {:induction false} PartialReplayKept(log: seq<Entry>, n: nat, sub: seq<string>)
    requires n <= |log|
    ensures var removed := RemovedNames(log);
            Drop(ListingAfter(log[..n], sub), removed) ==
            Drop(sub, removed) + Drop(Drop(ListingAfter(log[..n], []), removed), Elements(Drop(sub, removed)))
  {
    var removed, now := RemovedNames(log), RemovedNames(log[..n]);
    var c := ListingAfter(log[..n], []);
    ReplayFormula(log[..n], sub);
    RemovedPrefix(log, n);
    DropSum(Drop(sub, now), Drop(c, Staying(sub, now)), removed);
    DropTwice(sub, now, removed);
    assert now + removed == removed;
    DropTwice(c, Staying(sub, now), removed);
    DropTwice(c, removed, Staying(sub, removed));
    assert Staying(sub, now) + removed == removed + Staying(sub, removed);
    forall x | x in Drop(c, removed) ensures x !in removed { DropHas(c, removed, x); }
    OwnNamesOf(sub, Drop(c, removed), removed);
  }

  lemma {:induction false} PartialReplayBegins(log: seq<Entry>, n: nat, sub: seq<string>)
    requires n <= |log| && Begun(log, sub)
    ensures Begun(log, ListingAfter(log[..n], sub))
  {
    var removed := RemovedNames(log);
    PartialReplayKept(log, n, sub);
    StayingGrow(log, n, removed);
    ListingNoDup(log);
    DropNoDup(ListingAfter(log, []), removed);
    PrefixesJoin(Drop(ListingAfter(log, []), removed), Drop(sub, removed), Drop(ListingAfter(log[..n], []), removed));
  }

  /** What the replay appends to the names that stay: the rest of them, and the removed ones. */
  lemma {:induction false} ReplayAppends(sub: seq<string>, removed: set<string>, front: seq<string>, back: seq<string>)
    requires (forall x | x in front :: x !in removed) && (forall x | x in back :: x in removed)
    ensures Drop(front + back, Staying(sub, removed)) == Drop(front, Elements(Drop(sub, removed))) + back
  {
    DropSum(front, back, Staying(sub, removed));
    OwnNamesOf(sub, front, removed);
    DropNone(back, Staying(sub, removed));
  }

  /** Without an inversion, the whole log over any such listing gives the log's own listing. */
  lemma {:induction false} FullReplayIsOwn(log: seq<Entry>, sub: seq<string>)
    requires Begun(log, sub) && !Inverted(ListingAfter(log, []), RemovedNames(log))
    ensures ListingAfter(log, sub) == ListingAfter(log, [])
  {
    var c, removed := ListingAfter(log, []), RemovedNames(log);
    var stay := Staying(c, removed);
    var front, back := Drop(c, removed), Drop(c, stay);
    assert front + back == c by { OrderedStays(c, removed, stay); }
    assert ListingAfter(log, sub) == Drop(sub, removed) + Drop(c, Staying(sub, removed)) by { ReplayFormula(log, sub); }
    assert Drop(c, Staying(sub, removed)) == Drop(front, Elements(Drop(sub, removed))) + back by {
      forall x | x in front ensures x !in removed { DropHas(c, removed, x); }
      forall x | x in back ensures x in removed { DropHas(c, stay, x); }
      ReplayAppends(sub, removed, front, back);
    }
    assert Drop(sub, removed) + Drop(front, Elements(Drop(sub, removed))) == front by {
      ListingNoDup(log);
      DropNoDup(c, removed);
      PrefixesJoin(front, Drop(sub, removed), front);
    }
  }
}
