// Whole runs: what a client sees that keeps searching forward from the file found last.
module CrawlRun {
  import opened CrawlTree
  import opened CrawlOrder

  // Where an item occurs in the walk over everything
  lemma {:induction false} Locate(s: Search, root: ListId, q: Step) returns (k: nat)
    requires s.direction.Forward? && Consistent(s.b) && ReachableItem(s, root, q)
    ensures k < |s.Walk(root, 0, 1, true)| && s.Walk(root, 0, 1, true)[k] == q
    ensures k + 1 + |Inner(s, q.list, q.line, q.depth)| + |s.After(q.list, q.line, q.depth, true)|
            == |s.Walk(root, 0, 1, true)|
    ensures s.Walk(root, 0, 1, true)[k + 1 + |Inner(s, q.list, q.line, q.depth)|..]
            == s.After(q.list, q.line, q.depth, true)
  {
    var pre := FromIsSuffix(s, root, q.list, q.line, q.depth);
    FromParts(s, q.list, q.line, q.depth);
    var part := [q] + Inner(s, q.list, q.line, q.depth);
    Reassociate(pre, part, s.After(q.list, q.line, q.depth, true));
    k := |pre|;
    assert (pre + part)[k] == q;
  }

  lemma SortedUnique(b: Broker, steps: seq<Step>, x: nat, y: nat)
    requires Sorted(b, steps) && x < |steps| && y < |steps| && steps[x].See? && steps[y].See?
    ensures steps[x] == steps[y] ==> x == y
    ensures Before(Key(b, steps[x]), Key(b, steps[y])) ==> x < y
  {
    BeforeTrichotomy(Key(b, steps[x]), Key(b, steps[y]));
    BeforeTrichotomy(Key(b, steps[x]), Key(b, steps[x]));
  }

  lemma LaterMeansLess(b: Broker, all: seq<Step>, after: seq<Step>, q: Step, y: nat, rest: nat)
    requires Sorted(b, all) && q.See? && |after| <= |all| && all[|all| - |after|..] == after
    requires q in after && y + 1 + rest <= |all| && all[y] == q
    ensures rest < |after|
  {
    var k :| 0 <= k < |after| && after[k] == q;
    assert all[|all| - |after| + k] == q;
    SortedUnique(b, all, |all| - |after| + k, y);
  }

  lemma {:induction false} AfterIsTail(s: Search, root: ListId, q: Step, all: seq<Step>,
                                       after: seq<Step>) returns (k: nat)
    requires s.direction.Forward? && Consistent(s.b) && ReachableItem(s, root, q)
    requires all == s.Walk(root, 0, 1, true) && after == s.After(q.list, q.line, q.depth, true)
    ensures k + 1 + |after| <= |all| && all[k] == q && all[|all| - |after|..] == after && Sorted(s.b, all)
  {
    hide Search.Walk, Search.Up, Trail, Reachable;
    k := Locate(s, root, q);
    RootReachable(s, root, q.list, q.depth);
    WalkSorted(s, root, root, 0, 1, true);
  }

  // From a position on, there is less left to do than from any position before it.
  lemma {:induction false} AfterShrinks(s: Search, root: ListId, l: ListId, i: nat, d: nat, q: Step)
    requires s.direction.Forward? && Consistent(s.b) && Reachable(s, root, l, d) && i < |Items(s.b, l)|
    requires ReachableItem(s, root, q) && q in s.After(l, i, d, true)
    ensures |s.After(q.list, q.line, q.depth, true)| < |s.After(l, i, d, true)|
  {
    var all, after, rest := s.Walk(root, 0, 1, true), s.After(l, i, d, true), s.After(q.list, q.line, q.depth, true);
    var _ := AfterIsTail(s, root, See(l, i, d), all, after);
    var y := AfterIsTail(s, root, q, all, rest);
    LaterMeansLess(s.b, all, after, q, y, |rest|);
  }

  lemma {:induction false} FoundIsLater(s: Search, root: ListId, l: ListId, i: nat, d: nat)
    requires s.direction.Forward? && Consistent(s.b) && Reachable(s, root, l, d) && i < |Items(s.b, l)|
    requires s.First(s.After(l, i, d, true)).FoundAt?
    ensures var o := s.First(s.After(l, i, d, true));
            var q := See(o.list, o.line, o.depth);
            && IsNextStop(s, root, See(l, i, d), q) && Items(s.b, q.list)[q.line].File?
            && |s.After(q.list, q.line, q.depth, true)| < |s.After(l, i, d, true)|
  {
    FindNextIsNextFile(s, root, l, i, d);
    var o := s.First(s.After(l, i, d, true));
    var q := See(o.list, o.line, o.depth);
    AfterIsWhatFollows(s, root, See(l, i, d), q);
    AfterShrinks(s, root, l, i, d, q);
  }

  // The files found by forward FIND_NEXT operations, each started where the one before ended
  ghost function Run(s: Search, root: ListId, l: ListId, i: nat, d: nat): seq<Step>
    requires s.direction.Forward? && Consistent(s.b) && Reachable(s, root, l, d) && i < |Items(s.b, l)|
    decreases |s.After(l, i, d, true)|
  {
    match s.First(s.After(l, i, d, true))
    case FoundAt(l', i', d') =>
      FoundIsLater(s, root, l, i, d);
      [See(l', i', d')] + Run(s, root, l', i', d')
    case _ => []
  }

  // Something the search fails on comes after `start`, and before `q`.
  ghost predicate FailsBefore(s: Search, root: ListId, start: Step, q: Step)
    requires start.See? && q.See?
  {
    exists r :: ReachableItem(s, root, r) && FailsOn(s, r)
      && Follows(Key(s.b, start), Key(s.b, r)) && Before(Key(s.b, r), Key(s.b, q))
  }

  ghost predicate IsFile(s: Search, root: ListId, q: Step) {
    ReachableItem(s, root, q) && Items(s.b, q.list)[q.line].File?
  }

  // There is nothing below a file.
  lemma {:induction false} LaterThanFile(s: Search, root: ListId, f: Step, q: Step)
    requires s.direction.Forward? && Consistent(s.b) && IsFile(s, root, f) && ReachableItem(s, root, q)
    ensures Before(Key(s.b, f), Key(s.b, q)) <==> Follows(Key(s.b, f), Key(s.b, q))
  {
    hide Search.Walk, Search.After, Trail, Before, Reachable;
    if Before(Key(s.b, f), Key(s.b, q)) {
      var all, after := s.Walk(root, 0, 1, true), s.After(f.list, f.line, f.depth, true);
      RootReachable(s, root, f.list, f.depth);
      WalkSorted(s, root, root, 0, 1, true);
      var x := Locate(s, root, f);
      var y := Locate(s, root, q);
      SortedUnique(s.b, all, x, y);
      assert all[x + 1..] == after;
      assert q == after[y - x - 1];
      AfterIsWhatFollows(s, root, f, q);
    }
  }

  lemma FollowsTransitive(x: seq<nat>, y: seq<nat>, z: seq<nat>)
    requires Follows(x, y) && Before(y, z)
    ensures Follows(x, z)
  {
    BeforeTransitive(x, y, z);
    if x <= z {
      PrefixInterval(x, y, z);
    }
  }

  // Each file which follows is among the given ones, once and in preorder, up to the first item on
  // which the search fails.
  ghost predicate FindsEachFileOnce(s: Search, root: ListId, start: Step, found: seq<Step>)
    requires start.See?
  {
    && Sorted(s.b, found)
    && forall q :: q in found <==>
         IsFile(s, root, q) && Follows(Key(s.b, start), Key(s.b, q)) && !FailsBefore(s, root, start, q)
  }

  lemma {:induction false} RunFindsEachFileOnce(s: Search, root: ListId, l: ListId, i: nat, d: nat)
    requires s.direction.Forward? && Consistent(s.b) && Reachable(s, root, l, d) && i < |Items(s.b, l)|
    ensures FindsEachFileOnce(s, root, See(l, i, d), Run(s, root, l, i, d))
    decreases |s.After(l, i, d, true)|
  {
    var start, run := See(l, i, d), Run(s, root, l, i, d);
    FindNextIsNextFile(s, root, l, i, d);
    var o := s.First(s.After(l, i, d, true));
    if o.FoundAt? {
      FoundIsLater(s, root, l, i, d);
      RunFindsEachFileOnce(s, root, o.list, o.line, o.depth);
      forall q ensures q in run <==> IsFile(s, root, q) && Follows(Key(s.b, start), Key(s.b, q))
                                     && !FailsBefore(s, root, start, q)
      {
        RunStep(s, root, start, See(o.list, o.line, o.depth), q);
      }
      var rest := Run(s, root, o.list, o.line, o.depth);
      assert run == [See(o.list, o.line, o.depth)] + rest;
      SortedConcat(s.b, [See(o.list, o.line, o.depth)], rest);
    } else {
      forall q | IsFile(s, root, q) && Follows(Key(s.b, start), Key(s.b, q))
        ensures FailsBefore(s, root, start, q)
      {
        assert Stops(s, root, q);
      }
    }
  }

  // What follows the start is the next file, or it follows that file.
  lemma {:induction false} RunStep(s: Search, root: ListId, start: Step, f: Step, q: Step)
    requires s.direction.Forward? && Consistent(s.b) && ReachableItem(s, root, start)
    requires IsNextStop(s, root, start, f) && Items(s.b, f.list)[f.line].File?
    ensures IsFile(s, root, q) && Follows(Key(s.b, start), Key(s.b, q)) && !FailsBefore(s, root, start, q)
            <==> q == f || (IsFile(s, root, q) && Follows(Key(s.b, f), Key(s.b, q)) && !FailsBefore(s, root, f, q))
  {
    if IsFile(s, root, q) {
      BeforeTrichotomy(Key(s.b, f), Key(s.b, q));
      if Follows(Key(s.b, start), Key(s.b, q)) && q != f {
        assert Stops(s, root, q);
        LaterThanFile(s, root, f, q);
      }
      if Follows(Key(s.b, f), Key(s.b, q)) {
        FollowsTransitive(Key(s.b, start), Key(s.b, f), Key(s.b, q));
      }
      FailsStep(s, root, start, f, q);
    }
  }

  lemma {:induction false} FailsStep(s: Search, root: ListId, start: Step, f: Step, q: Step)
    requires s.direction.Forward? && Consistent(s.b) && ReachableItem(s, root, start) && IsFile(s, root, q)
    requires IsNextStop(s, root, start, f) && Items(s.b, f.list)[f.line].File?
    ensures Follows(Key(s.b, f), Key(s.b, q)) ==>
              (FailsBefore(s, root, start, q) <==> FailsBefore(s, root, f, q))
    ensures !FailsBefore(s, root, start, f)
  {
    forall r | ReachableItem(s, root, r) && FailsOn(s, r) && Follows(Key(s.b, start), Key(s.b, r))
      ensures Follows(Key(s.b, f), Key(s.b, r)) && !Before(Key(s.b, r), Key(s.b, f))
    {
      StopsIff(s, root, r);
      LaterThanFile(s, root, f, r);
      BeforeTrichotomy(Key(s.b, f), Key(s.b, r));
    }
    forall r | ReachableItem(s, root, r) && Follows(Key(s.b, f), Key(s.b, r))
      ensures Follows(Key(s.b, start), Key(s.b, r))
    {
      FollowsTransitive(Key(s.b, start), Key(s.b, f), Key(s.b, r));
    }
  }
}
