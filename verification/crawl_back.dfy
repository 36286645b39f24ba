// Searching backward.  The crawler enters a directory at its last item and walks up from there,
// but it steps over the item in line 0 unseen unless it has been in some subdirectory of that
// list before (src/directory_crawler_find_next_op.cc:208-217).
module CrawlBack {
  import opened CrawlTree
  import opened CrawlOrder

  // The directory item a list has been entered through
  function Parent(s: Search, q: Step): Step
    requires q.See? && q.depth > 1 && Ascends(s.b, q.list)
  {
    See(s.b[q.list].parent.list, s.b[q.list].parent.line, q.depth - 1)
  }

  // There is a directory to go into in lines 1 to `hi`.
  ghost predicate HasWayIn(s: Search, l: ListId, d: nat, hi: int) {
    exists k: nat :: 1 <= k <= hi && s.Enters(l, k, d)
  }

  // `q` is in list `l` at depth `d` in line `hi` or further up, or below such an item.
  ghost predicate AtOrAbove(s: Search, l: ListId, d: nat, hi: int, q: Step)
    requires q.See?
    decreases q.depth
  {
    if q.depth <= d then q.list == l && q.depth == d && q.line <= hi
    else Ascends(s.b, q.list) && q.depth > 1 && AtOrAbove(s, l, d, hi, Parent(s, q))
  }

  // None of the items on the way from list `l` at depth `d` down to `q`, and not `q` either, is
  // in line 0 of a list without another way in.  Line 0 of list `l` is fine if `hs` is set.
  ghost predicate InSight(s: Search, l: ListId, d: nat, hi: int, hs: bool, q: Step)
    requires q.See?
    decreases q.depth
  {
    if q.depth <= d then
      q.list == l && q.depth == d && q.line <= hi && (q.line > 0 || hs || HasWayIn(s, l, d, hi))
    else
      && Ascends(s.b, q.list) && q.depth > 1
      && (q.line > 0 || HasWayIn(s, q.list, q.depth, |Items(s.b, q.list)| - 1))
      && InSight(s, l, d, hi, hs, Parent(s, q))
  }

  lemma ParentReachable(s: Search, root: ListId, q: Step)
    requires ReachableItem(s, root, q) && q.depth > 1 && WellFormed(s.b)
    ensures Ascends(s.b, q.list) && ReachableItem(s, root, Parent(s, q))
    ensures s.Enters(Parent(s, q).list, Parent(s, q).line, q.depth - 1)
    ensures s.Child(Parent(s, q).list, Parent(s, q).line) == q.list
    ensures Key(s.b, q) == Key(s.b, Parent(s, q)) + [q.line]
  {
  }

  // What is in sight in a directory is in sight in the list above it.
  lemma {:induction false} InSightLift(s: Search, root: ListId, l: ListId, i: nat, d: nat, hs: bool, q: Step)
    requires Consistent(s.b) && Reachable(s, root, l, d) && s.Enters(l, i, d) && ReachableItem(s, root, q)
    requires !s.Blind(i, hs) && s.direction.Backward?
    requires InSight(s, s.Child(l, i), d + 1, |Items(s.b, s.Child(l, i))| - 1, false, q)
    ensures InSight(s, l, d, i, hs, q)
    decreases q.depth
  {
    EnterReachable(s, root, l, i, d);
    assert LeadsTo(s.b, l, i, s.Child(l, i));
    if q.depth > d + 1 {
      ParentReachable(s, root, q);
      InSightLift(s, root, l, i, d, hs, Parent(s, q));
    } else {
      assert Parent(s, q) == See(l, i, d);
    }
  }

  // Having been in the directory in line `i` opens up line 0.
  lemma {:induction false} InSightUp(s: Search, l: ListId, i: nat, d: nat, hs: bool, q: Step)
    requires q.See? && i > 0 && InSight(s, l, d, i - 1, hs || s.Enters(l, i, d), q)
    ensures InSight(s, l, d, i, hs, q)
    decreases q.depth
  {
    if q.depth > d {
      InSightUp(s, l, i, d, hs, Parent(s, q));
    } else if s.Enters(l, i, d) {
      assert HasWayIn(s, l, d, i);
    } else if HasWayIn(s, l, d, i - 1) {
      assert HasWayIn(s, l, d, i);
    }
  }

  // The other way around: something in sight is in line `i`, below it, or further up.
  lemma {:induction false} InSightSplit(s: Search, root: ListId, l: ListId, i: nat, d: nat, hs: bool, q: Step)
    requires Consistent(s.b) && Reachable(s, root, l, d) && ReachableItem(s, root, q)
    requires InSight(s, l, d, i, hs, q)
    ensures || q == See(l, i, d)
            || (s.Enters(l, i, d) && var c := s.Child(l, i); InSight(s, c, d + 1, |Items(s.b, c)| - 1, false, q))
            || (i > 0 && InSight(s, l, d, i - 1, hs || s.Enters(l, i, d), q))
    decreases q.depth
  {
    if q.depth > d {
      ParentReachable(s, root, q);
      InSightSplit(s, root, l, i, d, hs, Parent(s, q));
    } else if q.line < i && HasWayIn(s, l, d, i) && !s.Enters(l, i, d) {
      assert HasWayIn(s, l, d, i - 1);
    }
  }

  lemma {:induction false} NothingInSight(s: Search, l: ListId, d: nat, q: Step)
    requires q.See?
    ensures !InSight(s, l, d, 0, false, q)
    decreases q.depth
  {
    if q.depth > d && Ascends(s.b, q.list) && q.depth > 1 {
      NothingInSight(s, l, d, Parent(s, q));
    }
  }

  // Going up from line `i`, the crawler looks at exactly what is in sight.
  lemma {:induction false} WalkIsWhatIsInSight(s: Search, root: ListId, l: ListId, i: nat, d: nat, hs: bool, q: Step)
    requires s.direction.Backward? && Consistent(s.b) && Reachable(s, root, l, d)
    requires i < |Items(s.b, l)| && q.See?
    ensures q in s.Walk(l, i, d, hs) <==> ReachableItem(s, root, q) && InSight(s, l, d, i, hs, q)
    decreases if d < MAX_DIRECTORY_DEPTH then MAX_DIRECTORY_DEPTH - d else 0, i
  {
    hide Search.Walk, Trail, InSight, Reachable;
    if s.Blind(i, hs) {
      s.WalkEnd(l, i, d, hs);
      NothingInSight(s, l, d, q);
    } else {
      var e := s.Enters(l, i, d);
      BackwardParts(s, l, i, d, hs);
      if i > 0 {
        WalkIsWhatIsInSight(s, root, l, i - 1, d, hs || e, q);
      }
      if e {
        InnerIsWhatIsInSight(s, root, l, i, d, q);
      }
      InSightStep(s, root, l, i, d, hs, q);
    }
  }

  lemma BackwardParts(s: Search, l: ListId, i: nat, d: nat, hs: bool)
    requires s.direction.Backward? && i < |Items(s.b, l)| && !s.Blind(i, hs)
    ensures s.Walk(l, i, d, hs) == [See(l, i, d)] + Inner(s, l, i, d) + s.Beyond(l, i, d, hs || s.Enters(l, i, d))
  {
  }

  lemma {:induction false} InnerIsWhatIsInSight(s: Search, root: ListId, l: ListId, i: nat, d: nat, q: Step)
    requires s.direction.Backward? && Consistent(s.b) && Reachable(s, root, l, d) && s.Enters(l, i, d) && q.See?
    ensures var c := s.Child(l, i);
            q in Inner(s, l, i, d) <==>
              ReachableItem(s, root, q) && InSight(s, c, d + 1, |Items(s.b, c)| - 1, false, q)
    decreases if d < MAX_DIRECTORY_DEPTH then MAX_DIRECTORY_DEPTH - d else 0, i, 0
  {
    hide Search.Walk, Trail, InSight;
    var c := s.Child(l, i);
    EnterReachable(s, root, l, i, d);
    if Items(s.b, c) == [] {
      s.WalkEnd(c, s.Entry(c), d + 1, false);
      NothingInEmptyList(s, root, c, d + 1, q);
    } else {
      WalkIsWhatIsInSight(s, root, c, |Items(s.b, c)| - 1, d + 1, false, q);
    }
  }

  lemma {:induction false} NothingInEmptyList(s: Search, root: ListId, l: ListId, d: nat, q: Step)
    requires WellFormed(s.b) && q.See?
    ensures !(ReachableItem(s, root, q) && InSight(s, l, d, -1, false, q))
    decreases q.depth
  {
    if q.depth > d && q.depth > 1 && ReachableItem(s, root, q) {
      ParentReachable(s, root, q);
      NothingInEmptyList(s, root, l, d, Parent(s, q));
    }
  }

  lemma {:induction false} InSightStep(s: Search, root: ListId, l: ListId, i: nat, d: nat, hs: bool, q: Step)
    requires s.direction.Backward? && Consistent(s.b) && Reachable(s, root, l, d)
    requires i < |Items(s.b, l)| && !s.Blind(i, hs) && q.See?
    ensures ReachableItem(s, root, q) && InSight(s, l, d, i, hs, q) <==>
            || q == See(l, i, d)
            || (s.Enters(l, i, d) && ReachableItem(s, root, q)
                && InSight(s, s.Child(l, i), d + 1, |Items(s.b, s.Child(l, i))| - 1, false, q))
            || (i > 0 && ReachableItem(s, root, q) && InSight(s, l, d, i - 1, hs || s.Enters(l, i, d), q))
  {
    if ReachableItem(s, root, q) {
      if InSight(s, l, d, i, hs, q) {
        InSightSplit(s, root, l, i, d, hs, q);
      }
      if s.Enters(l, i, d) && InSight(s, s.Child(l, i), d + 1, |Items(s.b, s.Child(l, i))| - 1, false, q) {
        InSightLift(s, root, l, i, d, hs, q);
      }
      if i > 0 && InSight(s, l, d, i - 1, hs || s.Enters(l, i, d), q) {
        InSightUp(s, l, i, d, hs, q);
      }
    }
  }

  // ---------------------------------------------------------------- what comes before an item

  // `q` is in a line above `start` or above one of the directories leading to `start`, or it is
  // below an item in such a line.
  ghost predicate Earlier(s: Search, start: Step, q: Step)
    requires start.See? && q.See?
    decreases start.depth
  {
    || (start.line > 0 && AtOrAbove(s, start.list, start.depth, start.line - 1, q))
    || (start.depth > 1 && Ascends(s.b, start.list) && Earlier(s, Parent(s, start), q))
  }

  // The same, and the crawler does not overlook it
  ghost predicate Visible(s: Search, start: Step, q: Step)
    requires start.See? && q.See?
    decreases start.depth
  {
    || (start.line > 0 && InSight(s, start.list, start.depth, start.line - 1, true, q))
    || (start.depth > 1 && Ascends(s.b, start.list) && Visible(s, Parent(s, start), q))
  }

  lemma {:induction false} BeyondIsWhatIsInSight(s: Search, root: ListId, l: ListId, i: nat, d: nat, hs: bool, q: Step)
    requires s.direction.Backward? && Consistent(s.b) && Reachable(s, root, l, d) && i < |Items(s.b, l)| && q.See?
    ensures q in s.Beyond(l, i, d, hs) <==>
            i > 0 && ReachableItem(s, root, q) && InSight(s, l, d, i - 1, hs, q)
  {
    hide Search.Walk, InSight, Reachable;
    if i > 0 {
      WalkIsWhatIsInSight(s, root, l, i - 1, d, hs, q);
    }
  }

  // Exactly the visible items are looked at by a backward search.
  lemma {:induction false} AfterIsWhatIsVisible(s: Search, root: ListId, start: Step, q: Step)
    requires s.direction.Backward? && Consistent(s.b) && ReachableItem(s, root, start) && q.See?
    ensures q in s.After(start.list, start.line, start.depth, true) <==>
            ReachableItem(s, root, q) && Visible(s, start, q)
    decreases start.depth
  {
    hide Search.Walk, Search.After, Search.Up, Search.Beyond, InSight, Trail;
    BeyondIsWhatIsInSight(s, root, start.list, start.line, start.depth, true, q);
    AfterParts(s, start.list, start.line, start.depth);
    if start.depth > 1 {
      ParentReachable(s, root, start);
      var p := Parent(s, start);
      AfterIsWhatIsVisible(s, root, p, q);
      InConcat(s.Beyond(start.list, start.line, start.depth, true), Leave(start.list, start.depth),
               s.After(p.list, p.line, p.depth, true), q);
    }
  }

  lemma InConcat(x: seq<Step>, leave: Step, y: seq<Step>, q: Step)
    requires leave != q
    ensures q in x + ([leave] + y) <==> q in x || q in y
  {
  }

  lemma {:induction false} InSightIsAbove(s: Search, l: ListId, d: nat, hi: int, hs: bool, q: Step)
    requires q.See? && InSight(s, l, d, hi, hs, q)
    ensures AtOrAbove(s, l, d, hi, q)
    decreases q.depth
  {
    if q.depth > d {
      InSightIsAbove(s, l, d, hi, hs, Parent(s, q));
    }
  }

  lemma {:induction false} VisibleIsEarlier(s: Search, start: Step, q: Step)
    requires start.See? && q.See? && Visible(s, start, q)
    ensures Earlier(s, start, q)
    decreases start.depth
  {
    if start.line > 0 && InSight(s, start.list, start.depth, start.line - 1, true, q) {
      InSightIsAbove(s, start.list, start.depth, start.line - 1, true, q);
    } else {
      VisibleIsEarlier(s, Parent(s, start), q);
    }
  }

  lemma {:induction false} KeyAbove(s: Search, root: ListId, l: ListId, d: nat, hi: int, q: Step)
    requires WellFormed(s.b) && Reachable(s, root, l, d) && ReachableItem(s, root, q) && AtOrAbove(s, l, d, hi, q)
    ensures |Trail(s.b, l, d)| == d - 1 < |Key(s.b, q)| && Trail(s.b, l, d) <= Key(s.b, q) && Key(s.b, q)[d - 1] <= hi
    decreases q.depth
  {
    TrailLength(s, root, l, d);
    if q.depth > d {
      ParentReachable(s, root, q);
      KeyAbove(s, root, l, d, hi, Parent(s, q));
    }
  }

  // Earlier items come before the start in preorder.
  lemma {:induction false} EarlierFollows(s: Search, root: ListId, start: Step, q: Step)
    requires WellFormed(s.b) && ReachableItem(s, root, start) && ReachableItem(s, root, q) && Earlier(s, start, q)
    ensures Follows(Key(s.b, q), Key(s.b, start))
    decreases start.depth
  {
    var l, i, d := start.list, start.line, start.depth;
    TrailLength(s, root, l, d);
    if i > 0 && AtOrAbove(s, l, d, i - 1, q) {
      KeyAbove(s, root, l, d, i - 1, q);
      BeforeAt(Trail(s.b, l, d), Key(s.b, q), Key(s.b, start));
    } else {
      ParentReachable(s, root, start);
      EarlierFollows(s, root, Parent(s, start), q);
      BeforeExtension(Key(s.b, Parent(s, start)), Key(s.b, start));
      FollowsLonger(Key(s.b, q), Key(s.b, Parent(s, start)), start.line);
    }
  }

  lemma FollowsLonger(x: seq<nat>, y: seq<nat>, n: nat)
    requires Follows(x, y)
    ensures Follows(x, y + [n])
  {
    BeforeExtension(y, y + [n]);
    BeforeTransitive(x, y, y + [n]);
    if x <= y + [n] {
      BeforeTrichotomy(x, y + [n]);
    }
  }

  lemma {:induction false} KeyIsInjective(s: Search, root: ListId, p: Step, q: Step)
    requires WellFormed(s.b) && ReachableItem(s, root, p) && ReachableItem(s, root, q)
    requires Key(s.b, p) == Key(s.b, q)
    ensures p == q
    decreases p.depth
  {
    TrailLength(s, root, p.list, p.depth);
    TrailLength(s, root, q.list, q.depth);
    if p.depth > 1 {
      ParentReachable(s, root, p);
      ParentReachable(s, root, q);
      assert Trail(s.b, p.list, p.depth) == Key(s.b, p)[..p.depth - 1];
      assert Trail(s.b, q.list, q.depth) == Key(s.b, q)[..q.depth - 1];
      KeyIsInjective(s, root, Parent(s, p), Parent(s, q));
    }
  }

  lemma {:induction false} EarlierBelow(s: Search, start: Step, q: Step)
    requires start.See? && q.See? && q.depth > start.depth && Ascends(s.b, q.list) && q.depth > 1
    requires Earlier(s, start, Parent(s, q))
    ensures Earlier(s, start, q)
    decreases start.depth
  {
    if !(start.line > 0 && AtOrAbove(s, start.list, start.depth, start.line - 1, Parent(s, q))) {
      EarlierBelow(s, Parent(s, start), q);
    }
  }

  // Comparing places without their last component
  lemma FollowsShorter(x: seq<nat>, y: seq<nat>, m: nat)
    requires Follows(x + [m], y) && |y| <= |x|
    ensures Follows(x, y)
  {
    BeforeExtension(x, x + [m]);
    BeforeTransitive(x, x + [m], y);
    BeforeTrichotomy(x, y);
  }

  lemma {:induction false} FollowsPrefix(x: seq<nat>, y: seq<nat>, n: nat)
    requires Follows(x, y + [n]) && |x| <= |y|
    ensures Follows(x, y)
  {
    if x != [] && x[0] == y[0] {
      assert (y + [n])[1..] == y[1..] + [n];
      assert x == [x[0]] + x[1..] && y + [n] == [y[0]] + (y[1..] + [n]);
      FollowsPrefix(x[1..], y[1..], n);
      assert x <= y ==> x <= y + [n];
    }
  }

  lemma FollowsSameLength(x: seq<nat>, m: nat, y: seq<nat>, n: nat)
    requires Follows(x + [m], y + [n]) && |x| == |y|
    ensures x == y ==> m < n
    ensures x != y ==> Follows(x, y)
  {
    if x == y {
      BeforeCommon(x, [m], [n]);
    } else {
      BeforeExtension(x, x + [m]);
      BeforeTransitive(x, x + [m], y + [n]);
      assert (y + [n])[..|x|] == y;
      FollowsPrefix(x, y, n);
    }
  }

  lemma {:induction false} FollowsIsEarlierSameDepth(s: Search, root: ListId, start: Step, q: Step)
    requires WellFormed(s.b) && ReachableItem(s, root, start) && ReachableItem(s, root, q)
    requires start.depth == q.depth && Follows(Key(s.b, q), Key(s.b, start))
    requires q.depth > 1 ==> Parent(s, q) != Parent(s, start) ==> Earlier(s, Parent(s, start), Parent(s, q))
    ensures Earlier(s, start, q)
  {
    TrailLength(s, root, start.list, start.depth);
    TrailLength(s, root, q.list, q.depth);
    FollowsSameLength(Trail(s.b, q.list, q.depth), q.line, Trail(s.b, start.list, start.depth), start.line);
    if q.depth > 1 {
      ParentReachable(s, root, q);
      ParentReachable(s, root, start);
      if Parent(s, q) != Parent(s, start) {
        EarlierBelow(s, Parent(s, start), q);
      }
    }
  }

  // Conversely, what comes before the start in preorder is earlier, directories leading to the
  // start aside.
  lemma {:induction false} FollowsIsEarlier(s: Search, root: ListId, start: Step, q: Step)
    requires WellFormed(s.b) && ReachableItem(s, root, start) && ReachableItem(s, root, q)
    requires Follows(Key(s.b, q), Key(s.b, start))
    ensures Earlier(s, start, q)
    decreases start.depth + q.depth
  {
    TrailLength(s, root, start.list, start.depth);
    TrailLength(s, root, q.list, q.depth);
    if q.depth > start.depth {
      ParentReachable(s, root, q);
      FollowsShorter(Key(s.b, Parent(s, q)), Key(s.b, start), q.line);
      FollowsIsEarlier(s, root, start, Parent(s, q));
      EarlierBelow(s, start, q);
    } else if q.depth < start.depth {
      ParentReachable(s, root, start);
      FollowsPrefix(Key(s.b, q), Key(s.b, Parent(s, start)), start.line);
      FollowsIsEarlier(s, root, Parent(s, start), q);
    } else {
      if q.depth > 1 {
        ParentReachable(s, root, q);
        ParentReachable(s, root, start);
        if Parent(s, q) != Parent(s, start) {
          ParentsFollow(s, root, start, q);
          FollowsIsEarlier(s, root, Parent(s, start), Parent(s, q));
        }
      }
      FollowsIsEarlierSameDepth(s, root, start, q);
    }
  }

  lemma {:induction false} ParentsFollow(s: Search, root: ListId, start: Step, q: Step)
    requires WellFormed(s.b) && ReachableItem(s, root, start) && ReachableItem(s, root, q)
    requires start.depth == q.depth > 1 && Follows(Key(s.b, q), Key(s.b, start))
    requires Ascends(s.b, q.list) && Ascends(s.b, start.list) && Parent(s, q) != Parent(s, start)
    ensures Follows(Key(s.b, Parent(s, q)), Key(s.b, Parent(s, start)))
  {
    ParentReachable(s, root, q);
    ParentReachable(s, root, start);
    TrailLength(s, root, start.list, start.depth);
    TrailLength(s, root, q.list, q.depth);
    FollowsSameLength(Trail(s.b, q.list, q.depth), q.line, Trail(s.b, start.list, start.depth), start.line);
    if Key(s.b, Parent(s, q)) == Key(s.b, Parent(s, start)) {
      KeyIsInjective(s, root, Parent(s, q), Parent(s, start));
    }
  }

  // ---------------------------------------------------------------- order of the stops

  // Items at which the search stops are met in reverse preorder.
  ghost predicate ReverseSorted(s: Search, steps: seq<Step>) {
    forall x, y :: 0 <= x < y < |steps| && IsStop(s, steps[x]) && IsStop(s, steps[y]) ==>
      Before(Key(s.b, steps[y]), Key(s.b, steps[x]))
  }

  predicate IsStop(s: Search, p: Step) {
    p.See? && !s.Verdict(p).Exhausted?
  }

  ghost predicate AllAfter(s: Search, first: seq<Step>, second: seq<Step>) {
    forall p, q :: p in first && q in second && IsStop(s, p) && IsStop(s, q) ==> Before(Key(s.b, q), Key(s.b, p))
  }

  lemma {:induction false} ReverseConcat(s: Search, first: seq<Step>, second: seq<Step>)
    requires ReverseSorted(s, first) && ReverseSorted(s, second) && AllAfter(s, first, second)
    ensures ReverseSorted(s, first + second)
  {
    var steps := first + second;
    forall x, y | 0 <= x < y < |steps| && IsStop(s, steps[x]) && IsStop(s, steps[y])
      ensures Before(Key(s.b, steps[y]), Key(s.b, steps[x]))
    {
      if x < |first| <= y {
        assert steps[x] in first && steps[y] in second;
      }
    }
  }

  lemma {:induction false} LineReversed(s: Search, root: ListId, l: ListId, i: nat, d: nat, hs: bool, p: Step, q: Step)
    requires s.direction.Backward? && Consistent(s.b) && Reachable(s, root, l, d) && i < |Items(s.b, l)|
    requires p in [See(l, i, d)] + Inner(s, l, i, d) && q in s.Beyond(l, i, d, hs) && p.See? && q.See?
    ensures Before(Key(s.b, q), Key(s.b, p))
  {
    hide Search.Walk, Inner, Before, Reachable, InSight;
    BeyondIsWhatIsInSight(s, root, l, i, d, hs, q);
    InSightIsAbove(s, l, d, i - 1, hs, q);
    KeyAbove(s, root, l, d, i - 1, q);
    KeyOfLine(s, root, l, i, d, p);
    BeforeAt(Trail(s.b, l, d), Key(s.b, q), Key(s.b, p));
  }

  // What is in line `i` or below comes after what is further up.
  lemma {:induction false} LinesReversed(s: Search, root: ListId, l: ListId, i: nat, d: nat, hs: bool)
    requires s.direction.Backward? && Consistent(s.b) && Reachable(s, root, l, d) && i < |Items(s.b, l)|
    ensures AllAfter(s, [See(l, i, d)] + Inner(s, l, i, d), s.Beyond(l, i, d, hs))
  {
    forall p: Step, q: Step | p in [See(l, i, d)] + Inner(s, l, i, d) && q in s.Beyond(l, i, d, hs)
                              && IsStop(s, p) && IsStop(s, q)
      ensures Before(Key(s.b, q), Key(s.b, p))
    {
      LineReversed(s, root, l, i, d, hs, p, q);
    }
  }

  lemma {:induction false} KeyOfLine(s: Search, root: ListId, l: ListId, i: nat, d: nat, p: Step)
    requires s.direction.Backward? && Consistent(s.b) && Reachable(s, root, l, d) && i < |Items(s.b, l)|
    requires p in [See(l, i, d)] + Inner(s, l, i, d) && p.See?
    ensures |Trail(s.b, l, d)| == d - 1 < |Key(s.b, p)| && Trail(s.b, l, d) <= Key(s.b, p) && Key(s.b, p)[d - 1] == i
  {
    hide Search.Walk, Before, InSight, AtOrAbove;
    TrailLength(s, root, l, d);
    if p != See(l, i, d) {
      var c := s.Child(l, i);
      EnterReachable(s, root, l, i, d);
      InnerIsWhatIsInSight(s, root, l, i, d, p);
      InSightIsAbove(s, c, d + 1, |Items(s.b, c)| - 1, false, p);
      KeyAbove(s, root, c, d + 1, |Items(s.b, c)| - 1, p);
    }
  }

  lemma {:induction false} ReverseParts(s: Search, all: seq<Step>, look: Step, inner: seq<Step>, beyond: seq<Step>)
    requires all == [look] + inner + beyond
    requires ReverseSorted(s, inner) && ReverseSorted(s, beyond)
    requires IsStop(s, look) ==> inner == []
    requires AllAfter(s, [look] + inner, beyond)
    ensures ReverseSorted(s, all)
  {
    ReverseConcat(s, [look], inner);
    ReverseConcat(s, [look] + inner, beyond);
  }

  lemma {:induction false} WalkReverseSorted(s: Search, root: ListId, l: ListId, i: nat, d: nat, hs: bool)
    requires s.direction.Backward? && Consistent(s.b) && Reachable(s, root, l, d)
    ensures ReverseSorted(s, s.Walk(l, i, d, hs))
    decreases if d < MAX_DIRECTORY_DEPTH then MAX_DIRECTORY_DEPTH - d else 0, i, 1
  {
    hide Search.Walk, Trail, Before, Reachable, ReverseSorted;
    if i < |Items(s.b, l)| && !s.Blind(i, hs) {
      var e := s.Enters(l, i, d);
      BackwardParts(s, l, i, d, hs);
      if i > 0 {
        WalkReverseSorted(s, root, l, i - 1, d, hs || e);
      } else {
        NothingSorted(s);
      }
      InnerReverseSorted(s, root, l, i, d);
      LinesReversed(s, root, l, i, d, hs || e);
      ReverseParts(s, s.Walk(l, i, d, hs), See(l, i, d), Inner(s, l, i, d), s.Beyond(l, i, d, hs || e));
    } else {
      s.WalkEnd(l, i, d, hs);
      NothingSorted(s);
    }
  }

  lemma NothingSorted(s: Search)
    ensures ReverseSorted(s, [])
  {
  }

  lemma {:induction false} InnerReverseSorted(s: Search, root: ListId, l: ListId, i: nat, d: nat)
    requires s.direction.Backward? && Consistent(s.b) && Reachable(s, root, l, d)
    ensures ReverseSorted(s, Inner(s, l, i, d))
    decreases if d < MAX_DIRECTORY_DEPTH then MAX_DIRECTORY_DEPTH - d else 0, i, 0
  {
    hide Search.Walk, Trail, Before;
    if s.Enters(l, i, d) {
      var c := s.Child(l, i);
      EnterReachable(s, root, l, i, d);
      WalkReverseSorted(s, root, c, s.Entry(c), d + 1, false);
      ReverseConcat(s, s.Walk(c, s.Entry(c), d + 1, false), [Leave(c, d + 1)]);
    }
  }

  lemma {:induction false} UpComesBefore(s: Search, root: ListId, start: Step)
    requires s.direction.Backward? && Consistent(s.b) && ReachableItem(s, root, start) && start.depth > 1
    ensures AllAfter(s, s.Beyond(start.list, start.line, start.depth, true),
                     [Leave(start.list, start.depth)]
                     + s.After(s.b[start.list].parent.list, s.b[start.list].parent.line, start.depth - 1, true))
  {
    hide Search.Walk, Search.Up, Search.After, Search.Beyond, InSight;
    var l, i, d := start.list, start.line, start.depth;
    ParentReachable(s, root, start);
    var p := Parent(s, start);
    forall x: Step, y: Step | x in s.Beyond(l, i, d, true)
                              && y in [Leave(l, d)] + s.After(p.list, p.line, d - 1, true)
                              && IsStop(s, x) && IsStop(s, y)
      ensures Before(Key(s.b, y), Key(s.b, x))
    {
      BeyondIsWhatIsInSight(s, root, l, i, d, true, x);
      AfterIsWhatIsVisible(s, root, p, y);
      VisibleIsEarlier(s, p, y);
      EarlierFollows(s, root, p, y);
      InSightIsAbove(s, l, d, i - 1, true, x);
      KeyAbove(s, root, l, d, i - 1, x);
      BeforeExtension(Key(s.b, p), Key(s.b, x));
      BeforeTransitive(Key(s.b, y), Key(s.b, p), Key(s.b, x));
    }
  }

  lemma {:induction false} ReverseThree(s: Search, all: seq<Step>, beyond: seq<Step>, leave: Step, rest: seq<Step>)
    requires all == beyond + ([leave] + rest)
    requires ReverseSorted(s, beyond) && ReverseSorted(s, rest) && leave.Leave?
    requires AllAfter(s, beyond, [leave] + rest)
    ensures ReverseSorted(s, all)
  {
    ReverseConcat(s, [leave], rest);
    ReverseConcat(s, beyond, [leave] + rest);
  }

  lemma {:induction false} BeyondReverseSorted(s: Search, root: ListId, l: ListId, i: nat, d: nat)
    requires s.direction.Backward? && Consistent(s.b) && Reachable(s, root, l, d)
    ensures ReverseSorted(s, s.Beyond(l, i, d, true))
  {
    if i > 0 {
      WalkReverseSorted(s, root, l, i - 1, d, true);
    }
  }

  lemma {:induction false} AfterReverseSortedStep(s: Search, root: ListId, start: Step)
    requires s.direction.Backward? && Consistent(s.b) && ReachableItem(s, root, start) && start.depth > 1
    requires Ascends(s.b, start.list)
    requires ReverseSorted(s, s.After(Parent(s, start).list, Parent(s, start).line, start.depth - 1, true))
    ensures ReverseSorted(s, s.After(start.list, start.line, start.depth, true))
  {
    var l, i, d := start.list, start.line, start.depth;
    AfterParts(s, l, i, d);
    BeyondReverseSorted(s, root, l, i, d);
    UpComesBefore(s, root, start);
    ReverseThree(s, s.After(l, i, d, true), s.Beyond(l, i, d, true), Leave(l, d),
                 s.After(Parent(s, start).list, Parent(s, start).line, d - 1, true));
  }

  lemma {:induction false} AfterReverseSorted(s: Search, root: ListId, start: Step)
    requires s.direction.Backward? && Consistent(s.b) && ReachableItem(s, root, start)
    ensures ReverseSorted(s, s.After(start.list, start.line, start.depth, true))
    decreases start.depth
  {
    if start.depth > 1 {
      ParentReachable(s, root, start);
      AfterReverseSorted(s, root, Parent(s, start));
      AfterReverseSortedStep(s, root, start);
    } else {
      AfterParts(s, start.list, start.line, start.depth);
      BeyondReverseSorted(s, root, start.list, start.line, start.depth);
    }
  }

  // ---------------------------------------------------------------- backward search

  // `q` is the last stop in preorder among those which are visible from `start`.
  ghost predicate IsLastVisibleStop(s: Search, root: ListId, start: Step, q: Step)
    requires start.See?
  {
    && Stops(s, root, q) && Visible(s, start, q)
    && forall r :: Stops(s, root, r) && Visible(s, start, r) ==> r == q || Before(Key(s.b, r), Key(s.b, q))
  }

  // `q` is the stop right before `start` in preorder.
  ghost predicate IsPreviousStop(s: Search, root: ListId, start: Step, q: Step)
    requires start.See?
  {
    && Stops(s, root, q) && Follows(Key(s.b, q), Key(s.b, start))
    && forall r :: Stops(s, root, r) && Follows(Key(s.b, r), Key(s.b, start)) ==>
         r == q || Before(Key(s.b, r), Key(s.b, q))
  }

  lemma {:induction false} FirstStopIsLastVisible(s: Search, root: ListId, start: Step, k: nat, r: Step)
    requires s.direction.Backward? && Consistent(s.b) && ReachableItem(s, root, start)
    requires k <= |s.After(start.list, start.line, start.depth, true)|
    requires forall m :: 0 <= m < k ==> s.Verdict(s.After(start.list, start.line, start.depth, true)[m]).Exhausted?
    requires Stops(s, root, r) && Visible(s, start, r)
    ensures k < |s.After(start.list, start.line, start.depth, true)|
    ensures var q := s.After(start.list, start.line, start.depth, true)[k];
            IsStop(s, q) ==> r == q || Before(Key(s.b, r), Key(s.b, q))
  {
    var after := s.After(start.list, start.line, start.depth, true);
    AfterIsWhatIsVisible(s, root, start, r);
    AfterReverseSorted(s, root, start);
    var m :| 0 <= m < |after| && after[m] == r;
    assert IsStop(s, after[m]) && m >= k;
  }

  ghost predicate AllPass(s: Search, steps: seq<Step>) {
    forall q :: q in steps && q.Leave? ==> s.Verdict(q).Exhausted?
  }

  lemma PassThree(s: Search, look: Step, inner: seq<Step>, beyond: seq<Step>)
    requires look.See? && AllPass(s, inner) && AllPass(s, beyond)
    ensures AllPass(s, [look] + inner + beyond)
  {
  }

  lemma {:induction false} InnerPasses(s: Search, root: ListId, l: ListId, i: nat, d: nat)
    requires Consistent(s.b) && Reachable(s, root, l, d) && i < |Items(s.b, l)|
    requires s.Enters(l, i, d) ==> AllPass(s, s.Walk(s.Child(l, i), s.Entry(s.Child(l, i)), d + 1, false))
    ensures AllPass(s, Inner(s, l, i, d))
  {
    hide Search.Walk, Trail, Reachable;
    if s.Enters(l, i, d) {
      assert LeadsTo(s.b, l, i, s.Child(l, i));
    }
  }

  // The crawler can leave every list it has been in.
  lemma {:induction false} LeavesPassBack(s: Search, root: ListId, l: ListId, i: nat, d: nat, hs: bool)
    requires s.direction.Backward? && Consistent(s.b) && Reachable(s, root, l, d)
    ensures AllPass(s, s.Walk(l, i, d, hs))
    decreases if d < MAX_DIRECTORY_DEPTH then MAX_DIRECTORY_DEPTH - d else 0, i
  {
    hide Search.Walk, Trail, AllPass, Inner, Reachable;
    if i < |Items(s.b, l)| && !s.Blind(i, hs) {
      var e := s.Enters(l, i, d);
      BackwardParts(s, l, i, d, hs);
      if i > 0 {
        LeavesPassBack(s, root, l, i - 1, d, hs || e);
      }
      if e {
        var c := s.Child(l, i);
        EnterReachable(s, root, l, i, d);
        LeavesPassBack(s, root, c, s.Entry(c), d + 1, false);
      }
      InnerPasses(s, root, l, i, d);
      NothingPasses(s);
      PassThree(s, See(l, i, d), Inner(s, l, i, d), s.Beyond(l, i, d, hs || e));
    } else {
      s.WalkEnd(l, i, d, hs);
      NothingPasses(s);
    }
  }

  lemma NothingPasses(s: Search)
    ensures AllPass(s, [])
  {
  }

  lemma PassUp(s: Search, beyond: seq<Step>, leave: Step, rest: seq<Step>)
    requires AllPass(s, beyond) && AllPass(s, rest) && s.Verdict(leave).Exhausted?
    ensures AllPass(s, beyond + ([leave] + rest))
  {
  }

  lemma LeavePasses(s: Search, root: ListId, start: Step)
    requires Consistent(s.b) && ReachableItem(s, root, start) && start.depth > 1
    ensures s.Verdict(Leave(start.list, start.depth)).Exhausted?
  {
  }

  lemma {:induction false} AfterLeavesPassBack(s: Search, root: ListId, start: Step)
    requires s.direction.Backward? && Consistent(s.b) && ReachableItem(s, root, start)
    ensures AllPass(s, s.After(start.list, start.line, start.depth, true))
    decreases start.depth
  {
    hide Search.Walk, Search.After, Search.Up, Trail, AllPass, Search.Verdict;
    AfterParts(s, start.list, start.line, start.depth);
    NothingPasses(s);
    if start.line > 0 {
      LeavesPassBack(s, root, start.list, start.line - 1, start.depth, true);
    }
    if start.depth > 1 {
      ParentReachable(s, root, start);
      LeavePasses(s, root, start);
      var rest := s.After(Parent(s, start).list, Parent(s, start).line, start.depth - 1, true);
      AfterLeavesPassBack(s, root, Parent(s, start));
      PassUp(s, s.Beyond(start.list, start.line, start.depth, true), Leave(start.list, start.depth), rest);
    }
  }

  // Backward FIND_NEXT ends at the last visible file before the start unless there is something
  // visible in between on which it fails.  Whatever it finds comes before the start.
  lemma {:induction false} FindNextBackward(s: Search, root: ListId, l: ListId, i: nat, d: nat)
    requires s.direction.Backward? && Consistent(s.b) && Reachable(s, root, l, d) && i < |Items(s.b, l)|
    ensures match s.First(s.After(l, i, d, true))
            case Exhausted => forall q :: Stops(s, root, q) ==> !Visible(s, See(l, i, d), q)
            case FoundAt(l', i', d') =>
              && IsLastVisibleStop(s, root, See(l, i, d), See(l', i', d')) && Items(s.b, l')[i'].File?
              && Follows(Key(s.b, See(l', i', d')), Key(s.b, See(l, i, d)))
            case Fault =>
              exists q :: IsLastVisibleStop(s, root, See(l, i, d), q) && FailsOn(s, q)
            case AssertionFails => false
  {
    var start, after := See(l, i, d), s.After(l, i, d, true);
    var k := FirstStop(s, after);
    forall r | Stops(s, root, r) && Visible(s, start, r)
      ensures k < |after| && (IsStop(s, after[k]) ==> r == after[k] || Before(Key(s.b, r), Key(s.b, after[k])))
    {
      FirstStopIsLastVisible(s, root, start, k, r);
    }
    if k < |after| {
      var q := after[k];
      AfterLeavesPassBack(s, root, start);
      assert q in after;
      AfterIsWhatIsVisible(s, root, start, q);
      VisibleIsEarlier(s, start, q);
      EarlierFollows(s, root, start, q);
      assert IsLastVisibleStop(s, root, start, q);
      StopsIff(s, root, q);
    }
  }

  // The stop right before the start is found if and only if it is visible.
  lemma {:induction false} FoundIffVisible(s: Search, root: ListId, start: Step, q: Step)
    requires s.direction.Backward? && Consistent(s.b) && ReachableItem(s, root, start)
    requires IsPreviousStop(s, root, start, q) && HoldsFile(s, q)
    ensures s.First(s.After(start.list, start.line, start.depth, true)) == FoundAt(q.list, q.line, q.depth) <==>
            Visible(s, start, q)
  {
    FindNextBackward(s, root, start.list, start.line, start.depth);
    if Visible(s, start, q) {
      forall r | IsLastVisibleStop(s, root, start, r)
        ensures r == q
      {
        VisibleIsEarlier(s, start, r);
        EarlierFollows(s, root, start, r);
        BeforeTrichotomy(Key(s.b, r), Key(s.b, q));
      }
    }
  }

  predicate HoldsFile(s: Search, q: Step) {
    q.See? && q.line < |Items(s.b, q.list)| && Items(s.b, q.list)[q.line].File?
  }

  // No list which can be entered has something worth looking at in line 0 only.
  ghost predicate NoBlindSpots(s: Search, root: ListId) {
    forall p :: ReachableItem(s, root, p) && p.depth > 1 && p.line == 0
                && (IsStop(s, p) || s.Enters(p.list, 0, p.depth)) ==>
      HasWayIn(s, p.list, p.depth, |Items(s.b, p.list)| - 1)
  }

  lemma {:induction false} AboveIsInSight(s: Search, root: ListId, l: ListId, d: nat, hi: int, q: Step)
    requires WellFormed(s.b) && NoBlindSpots(s, root) && ReachableItem(s, root, q) && AtOrAbove(s, l, d, hi, q)
    requires IsStop(s, q) || s.Enters(q.list, q.line, q.depth)
    ensures InSight(s, l, d, hi, true, q)
    decreases q.depth
  {
    if q.depth > d {
      ParentReachable(s, root, q);
      AboveIsInSight(s, root, l, d, hi, Parent(s, q));
    }
  }

  lemma {:induction false} EarlierIsVisible(s: Search, root: ListId, start: Step, q: Step)
    requires WellFormed(s.b) && NoBlindSpots(s, root) && ReachableItem(s, root, q) && IsStop(s, q)
    requires start.See? && Earlier(s, start, q)
    ensures Visible(s, start, q)
    decreases start.depth
  {
    if start.line > 0 && AtOrAbove(s, start.list, start.depth, start.line - 1, q) {
      AboveIsInSight(s, root, start.list, start.depth, start.line - 1, q);
    } else {
      EarlierIsVisible(s, root, Parent(s, start), q);
    }
  }

  // Without blind spots, backward FIND_NEXT finds the file right before the start.
  lemma {:induction false} BackwardIsComplete(s: Search, root: ListId, l: ListId, i: nat, d: nat, q: Step)
    requires s.direction.Backward? && Consistent(s.b) && Reachable(s, root, l, d) && i < |Items(s.b, l)|
    requires NoBlindSpots(s, root) && IsPreviousStop(s, root, See(l, i, d), q) && HoldsFile(s, q)
    ensures s.First(s.After(l, i, d, true)) == FoundAt(q.list, q.line, q.depth)
  {
    FollowsIsEarlier(s, root, See(l, i, d), q);
    EarlierIsVisible(s, root, See(l, i, d), q);
    FoundIffVisible(s, root, See(l, i, d), q);
  }
}
