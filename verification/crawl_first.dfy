// FIND_FIRST: what is found if the item the search starts at is looked at as well.
module CrawlFirst {
  import opened CrawlTree
  import opened CrawlOrder
  import opened CrawlBack

  // `q` is the first stop in preorder which does not come before `start`.
  ghost predicate IsFirstStopFrom(s: Search, root: ListId, start: Step, q: Step)
    requires start.See?
  {
    && Stops(s, root, q) && !Before(Key(s.b, q), Key(s.b, start))
    && forall r :: Stops(s, root, r) && !Before(Key(s.b, r), Key(s.b, start)) ==>
         r == q || Before(Key(s.b, q), Key(s.b, r))
  }

  // The outcome of a search forward which begins with `start` itself
  ghost predicate IsFirstFile(s: Search, root: ListId, start: Step, o: Outcome)
    requires start.See?
  {
    match o
    case Exhausted => forall r :: Stops(s, root, r) ==> Before(Key(s.b, r), Key(s.b, start))
    case FoundAt(l, i, d) => IsFirstStopFrom(s, root, start, See(l, i, d)) && Items(s.b, l)[i].File?
    case Fault => exists q :: IsFirstStopFrom(s, root, start, q) && FailsOn(s, q)
    case AssertionFails => false
  }

  // All that is left to do, beginning with some item, is the tail of the walk over everything.
  lemma {:induction false} FromTail(s: Search, root: ListId, start: Step, all: seq<Step>, from: seq<Step>)
      returns (n: nat)
    requires s.direction.Forward? && Consistent(s.b) && ReachableItem(s, root, start)
    requires all == s.Walk(root, 0, 1, true) && from == s.From(start.list, start.line, start.depth, true)
    ensures n < |all| && all[n] == start && all[n..] == from && Sorted(s.b, all)
    ensures forall q :: q in all && q.See? ==> ReachableItem(s, root, q)
    ensures forall q :: q in all && q.Leave? ==> s.Verdict(q).Exhausted?
  {
    hide Search.Walk, Search.From, Search.Up, Search.Verdict, Reachable, Trail, Sorted;
    ReachableDepth(s, root, start.list, start.depth);
    RootReachable(s, root, start.list, start.depth);
    WalkSorted(s, root, root, 0, 1, true);
    LeavesPass(s, root, root, 0, 1, true);
    WalkStaysBelow(s, root, root, 0, 1, true);
    var pre := FromIsSuffix(s, root, start.list, start.line, start.depth);
    FromParts(s, start.list, start.line, start.depth);
    n := |pre|;
    assert all[n..] == from;
  }

  lemma {:induction false} TailIsNotBefore(b: Broker, all: seq<Step>, n: nat, q: Step)
    requires Sorted(b, all) && n < |all| && all[n].See? && q.See? && q in all
    ensures q in all[n..] <==> !Before(Key(b, q), Key(b, all[n]))
  {
    hide Trail, Before, Key;
    BeforeTrichotomy(Key(b, q), Key(b, all[n]));
    if q in all[n..] {
      var k :| 0 <= k < |all[n..]| && all[n..][k] == q;
      assert all[n + k] == q;
    } else {
      assert all == all[..n] + all[n..];
      var y :| 0 <= y < n && all[..n][y] == q;
      assert all[y] == q;
    }
  }

  // Exactly the reachable items which do not come before an item are looked at.
  lemma {:induction false} FromIsWhatIsNotBefore(s: Search, root: ListId, start: Step, q: Step)
    requires s.direction.Forward? && Consistent(s.b) && ReachableItem(s, root, start) && ReachableItem(s, root, q)
    ensures q in s.From(start.list, start.line, start.depth, true) <==> !Before(Key(s.b, q), Key(s.b, start))
  {
    hide Search.Walk, Search.From, Trail, Before, Reachable;
    var all := s.Walk(root, 0, 1, true);
    var n := FromTail(s, root, start, all, s.From(start.list, start.line, start.depth, true));
    var m := FromTail(s, root, q, all, s.From(q.list, q.line, q.depth, true));
    TailIsNotBefore(s.b, all, n, q);
  }

  lemma {:induction false} TailStop(s: Search, all: seq<Step>, n: nat, k: nat, r: Step)
    requires Sorted(s.b, all) && n < |all| && k <= |all[n..]| && r in all[n..] && r.See? && !s.Verdict(r).Exhausted?
    requires forall m :: 0 <= m < k ==> s.Verdict(all[n..][m]).Exhausted?
    ensures k < |all[n..]|
    ensures var q := all[n..][k]; q.See? ==> r == q || Before(Key(s.b, q), Key(s.b, r))
  {
    hide Trail, Before;
    var m :| 0 <= m < |all[n..]| && all[n..][m] == r;
    assert m >= k;
    assert all[n + m] == r && all[n + k] == all[n..][k];
  }

  // Forward FIND_FIRST ends at the first file in preorder at the start or behind it, be it below or not.
  lemma {:induction false} FindFirstIsFirstFile(s: Search, root: ListId, start: Step, hs: bool)
    requires s.direction.Forward? && Consistent(s.b) && ReachableItem(s, root, start)
    ensures IsFirstFile(s, root, start, s.First(s.From(start.list, start.line, start.depth, hs)))
  {
    hide Search.Walk, Search.From, Search.Up, Trail, Before, Reachable;
    var all, from := s.Walk(root, 0, 1, true), s.From(start.list, start.line, start.depth, true);
    ReachableDepth(s, root, start.list, start.depth);
    FromIgnoresSkip(s, start, hs);
    var n := FromTail(s, root, start, all, from);
    var k := FirstStop(s, from);
    forall r | Stops(s, root, r) && !Before(Key(s.b, r), Key(s.b, start))
      ensures k < |from| && (from[k].See? ==> r == from[k] || Before(Key(s.b, from[k]), Key(s.b, r)))
    {
      FromIsWhatIsNotBefore(s, root, start, r);
      TailStop(s, all, n, k, r);
    }
    if k < |from| {
      assert all[n + k] == from[k] && from[k] in all && from[k] in from;
      FromIsWhatIsNotBefore(s, root, start, from[k]);
      assert IsFirstStopFrom(s, root, start, from[k]);
      StopsIff(s, root, from[k]);
    }
  }

  lemma FromIgnoresSkip(s: Search, start: Step, hs: bool)
    requires s.direction.Forward? && start.See? && start.depth >= 1
    ensures s.From(start.list, start.line, start.depth, hs) == s.From(start.list, start.line, start.depth, true)
  {
    ForwardIgnoresSkip(s, start.list, start.line, start.depth, hs);
    ForwardIgnoresSkip(s, start.list, start.line, start.depth, true);
  }

  // ---------------------------------------------------------------- backward

  // `q` is the last stop in preorder among those in sight from line `i` of list `l` up.
  ghost predicate IsLastStopInSight(s: Search, l: ListId, i: nat, q: Step) {
    && Stops(s, l, q) && InSight(s, l, 1, i, false, q)
    && forall r :: Stops(s, l, r) && InSight(s, l, 1, i, false, r) ==> r == q || Before(Key(s.b, r), Key(s.b, q))
  }

  ghost predicate IsLastFileInSight(s: Search, l: ListId, i: nat, o: Outcome) {
    match o
    case Exhausted => forall r :: Stops(s, l, r) ==> !InSight(s, l, 1, i, false, r)
    case FoundAt(l', i', d) => IsLastStopInSight(s, l, i, See(l', i', d)) && Items(s.b, l')[i'].File?
    case Fault => exists q :: IsLastStopInSight(s, l, i, q) && FailsOn(s, q)
    case AssertionFails => false
  }

  lemma {:induction false} StopInSight(s: Search, l: ListId, i: nat, walk: seq<Step>, k: nat, r: Step)
    requires s.direction.Backward? && Consistent(s.b) && l in s.b && i < |Items(s.b, l)|
    requires walk == s.Walk(l, i, 1, false) && k <= |walk| && Stops(s, l, r) && InSight(s, l, 1, i, false, r)
    requires forall m :: 0 <= m < k ==> s.Verdict(walk[m]).Exhausted?
    ensures k < |walk| && (IsStop(s, walk[k]) ==> r == walk[k] || Before(Key(s.b, r), Key(s.b, walk[k])))
  {
    hide Search.Walk, Trail, Before, InSight;
    WalkIsWhatIsInSight(s, l, l, i, 1, false, r);
    WalkReverseSorted(s, l, l, i, 1, false);
    var m :| 0 <= m < |walk| && walk[m] == r;
    assert IsStop(s, walk[m]) && m >= k;
  }

  // Backward FIND_FIRST, started in line `i` of the list it enters first, ends at the last file in sight
  // from there.
  lemma {:induction false} FindFirstBackward(s: Search, l: ListId, i: nat)
    requires s.direction.Backward? && Consistent(s.b) && l in s.b && i < |Items(s.b, l)|
    ensures IsLastFileInSight(s, l, i, s.First(s.From(l, i, 1, false)))
  {
    hide Search.Walk, Trail, Before, InSight;
    var walk := s.Walk(l, i, 1, false);
    assert s.From(l, i, 1, false) == walk + [] == walk;
    var k := FirstStop(s, walk);
    forall r | Stops(s, l, r) && InSight(s, l, 1, i, false, r)
      ensures k < |walk| && (IsStop(s, walk[k]) ==> r == walk[k] || Before(Key(s.b, r), Key(s.b, walk[k])))
    {
      StopInSight(s, l, i, walk, k, r);
    }
    if k < |walk| {
      LeavesPassBack(s, l, l, i, 1, false);
      assert walk[k] in walk;
      assert s.First(walk) == s.Verdict(walk[k]);
      assert walk[k].See?;
      WalkIsWhatIsInSight(s, l, l, i, 1, false, walk[k]);
      assert IsLastStopInSight(s, l, i, walk[k]);
      StopsIff(s, l, walk[k]);
    }
  }
}
