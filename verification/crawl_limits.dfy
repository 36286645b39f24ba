// Where the crawler does something else than its documentation makes one expect, and when.
module CrawlLimits {
  import opened CrawlTree
  import opened CrawlOrder
  import opened CrawlBack

  // List 1 holds a directory and a file, and the directory (list 2) holds a single file.
  function OneFileBelow(): Broker {
    map[1 := Listing([Directory(Answer(2)), File], NoLink), 2 := Listing([File], Link(1, 0))]
  }

  lemma OneFileBelowIsConsistent()
    ensures Consistent(OneFileBelow())
  {
  }

  // Searching backward from the file in list 1, the file in list 2 is overlooked.
  lemma BackwardOverlooksFirstItem()
    ensures var s := Search(OneFileBelow(), DepthFirst, Backward);
            && Consistent(s.b) && ReachableItem(s, 1, See(2, 0, 2)) && s.Verdict(See(2, 0, 2)).FoundAt?
            && Follows(Key(s.b, See(2, 0, 2)), Key(s.b, See(1, 1, 1)))
            && s.First(s.After(1, 1, 1, true)) == Exhausted
  {
    var s := Search(OneFileBelow(), DepthFirst, Backward);
    assert Trail(s.b, 2, 2) == [0];
    assert Key(s.b, See(2, 0, 2)) == [0, 0] && Key(s.b, See(1, 1, 1)) == [1];
    assert s.Walk(2, 0, 2, false) == [];
    assert s.Walk(1, 0, 1, true) == [See(1, 0, 1)] + ([] + [Leave(2, 2)]) + [];
    assert s.After(1, 1, 1, true) == [See(1, 0, 1), Leave(2, 2)];
    s.FirstCons(See(1, 0, 1), [Leave(2, 2)]);
    s.FirstOne(Leave(2, 2));
  }

  // ---------------------------------------------------------------- non-recursive search

  // Line `j` is ahead of line `i`, and it is going to be looked at.
  predicate IsAhead(s: Search, l: ListId, i: nat, hs: bool, j: nat) {
    if s.direction.Forward? then i < j < |Items(s.b, l)|
    else (hs || j > 0) && j < i <= |Items(s.b, l)|
  }

  lemma {:induction false} FlatWalk(s: Search, l: ListId, i: nat, d: nat, hs: bool, p: Step)
    requires !s.direction.NoDirection? && s.mode.Flat?
    ensures p in s.Walk(l, i, d, hs) <==>
            && p.See? && p.list == l && p.depth == d
            && i < |Items(s.b, l)| && ((p.line == i && !s.Blind(i, hs)) || IsAhead(s, l, i, hs, p.line))
    decreases if s.direction.Forward? then |Items(s.b, l)| - i else i
  {
    hide Search.Walk;
    if i < |Items(s.b, l)| && !s.Blind(i, hs) {
      s.WalkUnfold(l, i, d, hs);
      if s.CanMove(l, i) {
        FlatWalk(s, l, s.Moved(i), d, hs, p);
      }
    } else {
      s.WalkEnd(l, i, d, hs);
    }
  }

  // Before the search stops, it has gone from list `l` up to its parent.
  ghost predicate GoesUp(s: Search, steps: seq<Step>, l: ListId, d: nat) {
    exists k :: 0 <= k < |steps| && steps[k] == Leave(l, d) && forall m :: 0 <= m < k ==> s.Verdict(steps[m]).Exhausted?
  }

  lemma {:induction false} FlatBeyond(s: Search, l: ListId, i: nat, d: nat, hs: bool, p: Step)
    requires !s.direction.NoDirection? && s.mode.Flat?
    ensures p in s.Beyond(l, i, d, hs) <==> p.See? && p.list == l && p.depth == d && IsAhead(s, l, i, hs, p.line)
  {
    hide Search.Walk;
    if s.CanMove(l, i) {
      FlatWalk(s, l, s.Moved(i), d, hs, p);
    }
  }

  // A non-recursive search is meant to stay in its list.  It goes up to the parent nonetheless,
  // namely from a nested list with nothing left to stop at.
  lemma {:induction false} FlatSearchGoesUpIff(s: Search, l: ListId, i: nat, d: nat, hs: bool)
    requires !s.direction.NoDirection? && s.mode.Flat? && d >= 1
    ensures GoesUp(s, s.After(l, i, d, hs), l, d) <==>
            d >= 2 && forall j: nat :: IsAhead(s, l, i, hs, j) ==> s.Verdict(See(l, j, d)).Exhausted?
  {
    hide Search.Walk, Search.Verdict, IsAhead;
    var beyond, after := s.Beyond(l, i, d, hs), s.After(l, i, d, hs);
    forall p ensures p in beyond <==> p.See? && p.list == l && p.depth == d && IsAhead(s, l, i, hs, p.line) {
      FlatBeyond(s, l, i, d, hs, p);
    }
    if GoesUp(s, after, l, d) {
      var k :| 0 <= k < |after| && after[k] == Leave(l, d) && forall m :: 0 <= m < k ==> s.Verdict(after[m]).Exhausted?;
      assert forall m :: 0 <= m < |beyond| ==> after[m] == beyond[m] && beyond[m] in beyond;
      forall j: nat | IsAhead(s, l, i, hs, j) ensures s.Verdict(See(l, j, d)).Exhausted? {
        assert See(l, j, d) in beyond;
        var m :| 0 <= m < |beyond| && beyond[m] == See(l, j, d);
        assert after[m] == See(l, j, d);
      }
    }
    if d >= 2 && forall j: nat :: IsAhead(s, l, i, hs, j) ==> s.Verdict(See(l, j, d)).Exhausted? {
      assert after[|beyond|] == Leave(l, d);
      forall m | 0 <= m < |beyond| ensures s.Verdict(after[m]).Exhausted? {
        assert after[m] == beyond[m] && beyond[m] in beyond;
      }
    }
  }

  // A non-recursive search from the only file in list 2 ends in list 1.
  lemma FlatEndsElsewhere()
    ensures var s := Search(OneFileBelow(), Flat, Forward);
            Consistent(s.b) && s.First(s.After(2, 0, 2, true)) == FoundAt(1, 1, 1)
  {
    var s := Search(OneFileBelow(), Flat, Forward);
    assert s.Walk(1, 1, 1, true) == [See(1, 1, 1)];
    assert s.Up(1, 1) == [];
    assert s.Up(2, 2) == [Leave(2, 2)] + ([See(1, 1, 1)] + []);
    assert s.After(2, 0, 2, true) == [Leave(2, 2)] + [See(1, 1, 1)];
    s.FirstCons(Leave(2, 2), [See(1, 1, 1)]);
    s.FirstOne(See(1, 1, 1));
  }
}
