// What the depth-first walk means: it visits the reachable items in preorder, each of them once.
module CrawlOrder {
  import opened CrawlTree
  import opened Wrappers

  // Line numbers of the directories on the way down to list `l`
  function Trail(b: Broker, l: ListId, d: nat): seq<nat>
    decreases d
  {
    if d <= 1 || !Ascends(b, l) then []
    else Trail(b, b[l].parent.list, d - 1) + [b[l].parent.line]
  }

  // The place of an item in the directory structure
  function Key(b: Broker, p: Step): seq<nat>
    requires p.See?
  {
    Trail(b, p.list, p.depth) + [p.line]
  }

  // Preorder: lexicographic order of places, a directory being placed before its contents
  predicate Before(x: seq<nat>, y: seq<nat>) {
    y != [] && (x == [] || x[0] < y[0] || (x[0] == y[0] && Before(x[1..], y[1..])))
  }

  // `y` comes after `x` and is not located below `x`.
  predicate Follows(x: seq<nat>, y: seq<nat>) {
    Before(x, y) && !(x <= y)
  }

  lemma {:induction false} BeforeCommon(t: seq<nat>, x: seq<nat>, y: seq<nat>)
    ensures Before(t + x, t + y) <==> Before(x, y)
  {
    if t == [] {
      assert t + x == x && t + y == y;
    } else {
      assert (t + x)[1..] == t[1..] + x && (t + y)[1..] == t[1..] + y;
      BeforeCommon(t[1..], x, y);
    }
  }

  lemma {:induction false} BeforeTransitive(x: seq<nat>, y: seq<nat>, z: seq<nat>)
    requires Before(x, y) && Before(y, z)
    ensures Before(x, z)
  {
    if x != [] && x[0] == y[0] == z[0] {
      BeforeTransitive(x[1..], y[1..], z[1..]);
    }
  }

  lemma {:induction false} BeforeTrichotomy(x: seq<nat>, y: seq<nat>)
    ensures !(Before(x, y) && Before(y, x))
    ensures Before(x, y) || Before(y, x) || x == y
    ensures x == y ==> !Before(x, y)
  {
    if x != [] && y != [] && x[0] == y[0] {
      BeforeTrichotomy(x[1..], y[1..]);
      assert x == [x[0]] + x[1..] && y == [y[0]] + y[1..];
    }
  }

  // Places which differ at index |t| first
  lemma BeforeAt(t: seq<nat>, x: seq<nat>, y: seq<nat>)
    requires |t| < |x| && |t| < |y| && t <= x && t <= y && x[|t|] < y[|t|]
    ensures Before(x, y) && !(x <= y)
  {
    assert x == t + x[|t|..] && y == t + y[|t|..];
    BeforeCommon(t, x[|t|..], y[|t|..]);
  }

  lemma BeforeExtension(x: seq<nat>, y: seq<nat>)
    requires x <= y && |x| < |y|
    ensures Before(x, y)
  {
    assert x == x + [] && y == x + y[|x|..];
    BeforeCommon(x, [], y[|x|..]);
  }

  // Going down from list `root` at depth 1 by entering directories, one gets into list `l` at
  // depth `d`.
  ghost predicate Reachable(s: Search, root: ListId, l: ListId, d: nat)
    decreases d
  {
    && l in s.b && d >= 1
    && if d == 1 then l == root
       else
         && Ascends(s.b, l)
         && LeadsTo(s.b, s.b[l].parent.list, s.b[l].parent.line, l)
         && s.Enters(s.b[l].parent.list, s.b[l].parent.line, d - 1)
         && Reachable(s, root, s.b[l].parent.list, d - 1)
  }

  ghost predicate ReachableItem(s: Search, root: ListId, p: Step) {
    p.See? && Reachable(s, root, p.list, p.depth) && p.line < |Items(s.b, p.list)|
  }

  lemma {:induction false} TrailLength(s: Search, root: ListId, l: ListId, d: nat)
    requires Reachable(s, root, l, d)
    ensures |Trail(s.b, l, d)| == d - 1
    decreases d
  {
    if d > 1 {
      TrailLength(s, root, s.b[l].parent.list, d - 1);
    }
  }

  lemma {:induction false} EnterReachable(s: Search, root: ListId, l: ListId, i: nat, d: nat)
    requires Consistent(s.b) && Reachable(s, root, l, d) && s.Enters(l, i, d)
    ensures Reachable(s, root, s.Child(l, i), d + 1)
    ensures Trail(s.b, s.Child(l, i), d + 1) == Trail(s.b, l, d) + [i]
  {
    assert LeadsTo(s.b, l, i, s.Child(l, i));
  }

  lemma ReachableDepth(s: Search, root: ListId, l: ListId, d: nat)
    requires Reachable(s, root, l, d)
    ensures l in s.b && 1 <= d <= MAX_DIRECTORY_DEPTH
  {
  }

  // The list one gets into by entering the directories in the given lines, one after another, beginning in list
  // `root`
  function ListAt(b: Broker, root: ListId, path: seq<nat>): Option<ListId> {
    if path == [] then Some(root)
    else
      var n := |path| - 1;
      match ListAt(b, root, path[..n])
      case None => None
      case Some(l) =>
        if l in b && path[n] < |b[l].items| && b[l].items[path[n]].Directory?
           && b[l].items[path[n]].lookup.Answer? && b[l].items[path[n]].lookup.id > 0
           && b[l].items[path[n]].lookup.id in b then
          Some(b[l].items[path[n]].lookup.id)
        else None
  }

  lemma {:induction false} ReachableByPath(s: Search, root: ListId, l: ListId, d: nat)
    requires Reachable(s, root, l, d)
    ensures ListAt(s.b, root, Trail(s.b, l, d)) == Some(l) && |Trail(s.b, l, d)| == d - 1
    ensures d <= 100 && (s.mode.Flat? ==> d == 1)
    decreases d
  {
    if d > 1 {
      var p := s.b[l].parent.list;
      ReachableByPath(s, root, p, d - 1);
      assert Trail(s.b, l, d) == Trail(s.b, p, d - 1) + [s.b[l].parent.line];
      assert Trail(s.b, l, d)[..d - 2] == Trail(s.b, p, d - 1);
    }
  }

  lemma {:induction false} PathIsReachable(s: Search, root: ListId, l: ListId, path: seq<nat>)
    requires Consistent(s.b) && root in s.b && !s.direction.NoDirection?
    requires ListAt(s.b, root, path) == Some(l) && |path| < 100 && (s.mode.Flat? ==> path == [])
    ensures Reachable(s, root, l, |path| + 1) && Trail(s.b, l, |path| + 1) == path
    decreases |path|
  {
    if path != [] {
      var n := |path| - 1;
      var p := ListAt(s.b, root, path[..n]).value;
      PathIsReachable(s, root, p, path[..n]);
      EnterReachable(s, root, p, path[n], |path|);
    }
  }

  // Reachable lists are those behind less than 100 directories, or none if the search is flat; and the place of
  // what is in there begins with the lines of those directories.
  lemma ReachableIff(s: Search, root: ListId, l: ListId, path: seq<nat>)
    requires Consistent(s.b) && root in s.b && !s.direction.NoDirection?
    ensures Reachable(s, root, l, |path| + 1) && Trail(s.b, l, |path| + 1) == path <==>
            ListAt(s.b, root, path) == Some(l) && |path| < 100 && (s.mode.Flat? ==> path == [])
  {
    hide Reachable, Trail, ListAt, Consistent;
    if Reachable(s, root, l, |path| + 1) && Trail(s.b, l, |path| + 1) == path {
      ReachableByPath(s, root, l, |path| + 1);
    }
    if ListAt(s.b, root, path) == Some(l) && |path| < 100 && (s.mode.Flat? ==> path == []) {
      PathIsReachable(s, root, l, path);
    }
  }

  // There is only one depth if the root is a root indeed.
  lemma {:induction false} DepthIsUnique(s: Search, root: ListId, l: ListId, d: nat, d': nat)
    requires !Ascends(s.b, root) && Reachable(s, root, l, d) && Reachable(s, root, l, d')
    ensures d == d'
    decreases d
  {
    if d > 1 && d' > 1 {
      DepthIsUnique(s, root, s.b[l].parent.list, d - 1, d' - 1);
    }
  }

  // ---------------------------------------------------------------- forward order

  // Item `p` is in list `l` at depth `d` in line `lo` or further down, or below such an item.
  ghost predicate AtOrBelow(s: Search, root: ListId, l: ListId, lo: nat, d: nat, p: Step) {
    && ReachableItem(s, root, p)
    && d >= 1 && d - 1 < |Key(s.b, p)|
    && Trail(s.b, l, d) <= Key(s.b, p)
    && |Trail(s.b, l, d)| == d - 1
    && Key(s.b, p)[d - 1] >= lo
  }

  ghost predicate AllAtOrBelow(s: Search, root: ListId, l: ListId, lo: nat, d: nat, steps: seq<Step>) {
    forall p :: p in steps && p.See? ==> AtOrBelow(s, root, l, lo, d, p)
  }

  lemma {:induction false} WalkStaysBelow(s: Search, root: ListId, l: ListId, i: nat, d: nat, hs: bool)
    requires s.direction.Forward? && Consistent(s.b) && Reachable(s, root, l, d)
    ensures AllAtOrBelow(s, root, l, i, d, s.Walk(l, i, d, hs))
    decreases if d < MAX_DIRECTORY_DEPTH then MAX_DIRECTORY_DEPTH - d else 0, |Items(s.b, l)| - i
  {
    hide Search.Walk, Before, Reachable;
    TrailLength(s, root, l, d);
    if i < |Items(s.b, l)| {
      s.WalkUnfold(l, i, d, hs);
      assert AtOrBelow(s, root, l, i, d, See(l, i, d));
      if s.CanMove(l, i) {
        WalkStaysBelow(s, root, l, i + 1, d, hs);
        WalkStaysBelow(s, root, l, i + 1, d, true);
      }
      if s.Enters(l, i, d) {
        var c := s.Child(l, i);
        EnterReachable(s, root, l, i, d);
        WalkStaysBelow(s, root, c, s.Entry(c), d + 1, false);
        forall p | p in s.Walk(c, s.Entry(c), d + 1, false) && p.See?
          ensures AtOrBelow(s, root, l, i, d, p)
        {
          assert AtOrBelow(s, root, c, 0, d + 1, p);
        }
      }
    } else {
      s.WalkEnd(l, i, d, hs);
    }
  }

  // The items are looked at in strict preorder.
  ghost predicate Sorted(b: Broker, steps: seq<Step>) {
    forall x, y :: 0 <= x < y < |steps| && steps[x].See? && steps[y].See? ==>
      Before(Key(b, steps[x]), Key(b, steps[y]))
  }

  // All items of `first` come before all items of `second`.
  ghost predicate AllBefore(b: Broker, first: seq<Step>, second: seq<Step>) {
    forall p, q :: p in first && q in second && p.See? && q.See? ==> Before(Key(b, p), Key(b, q))
  }

  lemma SortedConcat(b: Broker, first: seq<Step>, second: seq<Step>)
    requires Sorted(b, first) && Sorted(b, second) && AllBefore(b, first, second)
    ensures Sorted(b, first + second)
  {
    var steps := first + second;
    forall x, y | 0 <= x < y < |steps| && steps[x].See? && steps[y].See?
      ensures Before(Key(b, steps[x]), Key(b, steps[y]))
    {
      if x < |first| <= y {
        assert steps[x] in first && steps[y] in second;
      }
    }
  }

  // Items in or below line `i` come before items in or below line `i + 1`.
  lemma {:induction false} LineBeforeNext(s: Search, root: ListId, l: ListId, i: nat, d: nat, p: Step, q: Step)
    requires AtOrBelow(s, root, l, i, d, p) && Key(s.b, p)[d - 1] == i
    requires AtOrBelow(s, root, l, i + 1, d, q)
    ensures Follows(Key(s.b, p), Key(s.b, q))
  {
    BeforeAt(Trail(s.b, l, d), Key(s.b, p), Key(s.b, q));
  }

  // The part of the walk below an item
  function Inner(s: Search, l: ListId, i: nat, d: nat): seq<Step> {
    if s.Enters(l, i, d) then
      s.Walk(s.Child(l, i), s.Entry(s.Child(l, i)), d + 1, false) + [Leave(s.Child(l, i), d + 1)]
    else []
  }

  lemma {:induction false} InnerBelow(s: Search, root: ListId, l: ListId, i: nat, d: nat)
    requires s.direction.Forward? && Consistent(s.b) && Reachable(s, root, l, d) && i < |Items(s.b, l)|
    ensures forall p :: p in Inner(s, l, i, d) && p.See? ==>
              && AtOrBelow(s, root, l, i, d, p)
              && Key(s.b, See(l, i, d)) <= Key(s.b, p)
              && Before(Key(s.b, See(l, i, d)), Key(s.b, p))
  {
    if s.Enters(l, i, d) {
      var c := s.Child(l, i);
      TrailLength(s, root, l, d);
      EnterReachable(s, root, l, i, d);
      WalkStaysBelow(s, root, c, 0, d + 1, false);
      forall p | p in s.Walk(c, 0, d + 1, false) && p.See?
        ensures && AtOrBelow(s, root, l, i, d, p)
                && Key(s.b, See(l, i, d)) <= Key(s.b, p)
                && Before(Key(s.b, See(l, i, d)), Key(s.b, p))
      {
        assert AtOrBelow(s, root, c, 0, d + 1, p);
        BeforeExtension(Key(s.b, See(l, i, d)), Key(s.b, p));
      }
    }
  }

  // An item and everything below it come before everything from the next line on.
  lemma {:induction false} LinesSeparated(s: Search, root: ListId, l: ListId, i: nat, d: nat, hs: bool)
    requires s.direction.Forward? && Consistent(s.b) && Reachable(s, root, l, d) && i < |Items(s.b, l)|
    ensures AllBefore(s.b, [See(l, i, d)], Inner(s, l, i, d))
    ensures AllBefore(s.b, [See(l, i, d)] + Inner(s, l, i, d), s.Beyond(l, i, d, hs))
  {
    TrailLength(s, root, l, d);
    InnerBelow(s, root, l, i, d);
    if s.CanMove(l, i) {
      WalkStaysBelow(s, root, l, i + 1, d, hs);
      forall p: Step, q: Step | p in [See(l, i, d)] + Inner(s, l, i, d) && q in s.Beyond(l, i, d, hs)
                                && p.See? && q.See?
        ensures Before(Key(s.b, p), Key(s.b, q))
      {
        assert AtOrBelow(s, root, l, i, d, See(l, i, d));
        LineBeforeNext(s, root, l, i, d, p, q);
      }
    }
  }

  lemma WalkParts(s: Search, l: ListId, i: nat, d: nat, hs: bool)
    requires s.direction.Forward? && i < |Items(s.b, l)|
    ensures s.Walk(l, i, d, hs) == [See(l, i, d)] + Inner(s, l, i, d) + s.Beyond(l, i, d, hs || s.Enters(l, i, d))
  {
  }

  lemma {:induction false} ForwardIgnoresSkip(s: Search, l: ListId, i: nat, d: nat, hs: bool)
    requires s.direction.Forward?
    ensures s.Walk(l, i, d, hs) == s.Walk(l, i, d, false)
    decreases |Items(s.b, l)| - i
  {
    hide Search.Walk, Search.Enters, Inner;
    if i < |Items(s.b, l)| {
      WalkParts(s, l, i, d, hs);
      WalkParts(s, l, i, d, false);
      if s.CanMove(l, i) {
        ForwardIgnoresSkip(s, l, i + 1, d, hs || s.Enters(l, i, d));
        ForwardIgnoresSkip(s, l, i + 1, d, s.Enters(l, i, d));
      }
    } else {
      s.WalkEnd(l, i, d, hs);
      s.WalkEnd(l, i, d, false);
    }
  }

  lemma SortedThree(b: Broker, look: seq<Step>, inner: seq<Step>, beyond: seq<Step>)
    requires Sorted(b, look) && Sorted(b, inner) && Sorted(b, beyond)
    requires AllBefore(b, look, inner) && AllBefore(b, look + inner, beyond)
    ensures Sorted(b, look + inner + beyond)
  {
    SortedConcat(b, look, inner);
    SortedConcat(b, look + inner, beyond);
  }

  lemma SortedShort(b: Broker, p: Step)
    ensures Sorted(b, []) && Sorted(b, [p])
  {
  }

  lemma {:induction false} InnerSorted(s: Search, l: ListId, i: nat, d: nat)
    requires s.direction.Forward?
    requires s.Enters(l, i, d) ==> Sorted(s.b, s.Walk(s.Child(l, i), 0, d + 1, false))
    ensures Sorted(s.b, Inner(s, l, i, d))
  {
    hide Search.Walk, Trail, Before;
    if s.Enters(l, i, d) {
      SortedConcat(s.b, s.Walk(s.Child(l, i), 0, d + 1, false), [Leave(s.Child(l, i), d + 1)]);
    }
  }

  lemma {:induction false} WalkSorted(s: Search, root: ListId, l: ListId, i: nat, d: nat, hs: bool)
    requires s.direction.Forward? && Consistent(s.b) && Reachable(s, root, l, d)
    ensures Sorted(s.b, s.Walk(l, i, d, hs))
    decreases if d < MAX_DIRECTORY_DEPTH then MAX_DIRECTORY_DEPTH - d else 0, |Items(s.b, l)| - i
  {
    hide Search.Walk, Trail, Before, Sorted, AllBefore, Inner;
    SortedShort(s.b, See(l, i, d));
    if i < |Items(s.b, l)| {
      var e := s.Enters(l, i, d);
      WalkParts(s, l, i, d, hs);
      LinesSeparated(s, root, l, i, d, hs || e);
      if s.CanMove(l, i) {
        WalkSorted(s, root, l, i + 1, d, hs || e);
      }
      if e {
        EnterReachable(s, root, l, i, d);
        WalkSorted(s, root, s.Child(l, i), 0, d + 1, false);
      }
      InnerSorted(s, l, i, d);
      SortedThree(s.b, [See(l, i, d)], Inner(s, l, i, d), s.Beyond(l, i, d, hs || e));
    } else {
      s.WalkEnd(l, i, d, hs);
    }
  }

  // ---------------------------------------------------------------- what is left after an item

  // All that is left to do comes after an item and what is below it.
  lemma {:induction false} FromParts(s: Search, l: ListId, i: nat, d: nat)
    requires s.direction.Forward? && d >= 1 && i < |Items(s.b, l)|
    ensures s.From(l, i, d, true) == ([See(l, i, d)] + Inner(s, l, i, d)) + s.After(l, i, d, true)
  {
    WalkParts(s, l, i, d, true);
    Reassociate([See(l, i, d)] + Inner(s, l, i, d), s.Beyond(l, i, d, true), s.Up(l, d));
  }

  lemma Reassociate(x: seq<Step>, y: seq<Step>, z: seq<Step>)
    ensures (x + y) + z == x + (y + z)
  {
  }

  // Seen from inside a directory, the same is left to do.
  lemma {:induction false} FromInside(s: Search, root: ListId, l: ListId, i: nat, d: nat)
    requires s.direction.Forward? && Consistent(s.b) && Reachable(s, root, l, d) && s.Enters(l, i, d)
    ensures s.From(l, i, d, true) == [See(l, i, d)] + s.From(s.Child(l, i), 0, d + 1, true)
  {
    hide Search.Walk, Trail;
    var c := s.Child(l, i);
    assert LeadsTo(s.b, l, i, c);
    ForwardIgnoresSkip(s, c, 0, d + 1, true);
    FromParts(s, l, i, d);
    var sub, leave, after := s.Walk(c, 0, d + 1, false), [Leave(c, d + 1)], s.After(l, i, d, true);
    assert s.Up(c, d + 1) == leave + after;
    Reassociate([See(l, i, d)], sub + leave, after);
    Reassociate(sub, leave, after);
  }

  lemma {:induction false} FromNextLine(s: Search, l: ListId, i: nat, d: nat)
    requires s.direction.Forward? && d >= 1 && i + 1 < |Items(s.b, l)|
    ensures s.From(l, i, d, true) == ([See(l, i, d)] + Inner(s, l, i, d)) + s.From(l, i + 1, d, true)
  {
    FromParts(s, l, i, d);
    assert s.After(l, i, d, true) == s.From(l, i + 1, d, true);
  }

  lemma Extend(all: seq<Step>, pre: seq<Step>, part: seq<Step>, rest: seq<Step>)
    requires all == pre + (part + rest)
    ensures all == (pre + part) + rest
  {
  }

  lemma {:induction false} FromSuffix(s: Search, root: ListId, l: ListId, i: nat, d: nat) returns (pre: seq<Step>)
    requires s.direction.Forward? && Consistent(s.b) && Reachable(s, root, l, d) && i < |Items(s.b, l)|
    ensures s.From(root, 0, 1, true) == pre + s.From(l, i, d, true)
    decreases d, i
  {
    hide Search.Walk, Search.Up, Search.From, Search.After, Inner, Trail;
    if i > 0 {
      pre := FromSuffix(s, root, l, i - 1, d);
      FromNextLine(s, l, i - 1, d);
      var part := [See(l, i - 1, d)] + Inner(s, l, i - 1, d);
      Extend(s.From(root, 0, 1, true), pre, part, s.From(l, i, d, true));
      pre := pre + part;
    } else if d > 1 {
      var p, j := s.b[l].parent.list, s.b[l].parent.line;
      pre := FromSuffix(s, root, p, j, d - 1);
      FromInside(s, root, p, j, d - 1);
      Extend(s.From(root, 0, 1, true), pre, [See(p, j, d - 1)], s.From(l, i, d, true));
      pre := pre + [See(p, j, d - 1)];
    } else {
      pre := [];
    }
  }

  // All that is left to do from some item on is a suffix of the walk over everything.
  lemma {:induction false} FromIsSuffix(s: Search, root: ListId, l: ListId, i: nat, d: nat) returns (pre: seq<Step>)
    requires s.direction.Forward? && Consistent(s.b) && Reachable(s, root, l, d) && i < |Items(s.b, l)|
    ensures s.Walk(root, 0, 1, true) == pre + s.From(l, i, d, true)
  {
    pre := FromSuffix(s, root, l, i, d);
    assert s.From(root, 0, 1, true) == s.Walk(root, 0, 1, true) + [];
  }

  lemma FollowsExtension(x: seq<nat>, z: seq<nat>, y: seq<nat>)
    requires Follows(x, y) && x <= z
    ensures Follows(z, y)
  {
    BeforeTrichotomy(z, y);
    if Before(y, z) {
      PrefixInterval(x, y, z);
    }
  }

  // Whatever lies between a place and something below it is itself below it.
  lemma {:induction false} PrefixInterval(x: seq<nat>, y: seq<nat>, z: seq<nat>)
    requires Before(x, y) && Before(y, z) && x <= z
    ensures x <= y
  {
    if x != [] {
      assert z[0] == x[0] && y[0] == x[0];
      PrefixInterval(x[1..], y[1..], z[1..]);
      assert x == [x[0]] + x[1..] && y == [y[0]] + y[1..];
    }
  }

  ghost predicate AllFollow(s: Search, root: ListId, start: Step, steps: seq<Step>)
    requires start.See?
  {
    forall q :: q in steps && q.See? ==> ReachableItem(s, root, q) && Follows(Key(s.b, start), Key(s.b, q))
  }

  lemma {:induction false} BeyondFollows(s: Search, root: ListId, l: ListId, i: nat, d: nat)
    requires s.direction.Forward? && Consistent(s.b) && Reachable(s, root, l, d) && i < |Items(s.b, l)|
    ensures AllFollow(s, root, See(l, i, d), s.Beyond(l, i, d, true))
  {
    TrailLength(s, root, l, d);
    assert AtOrBelow(s, root, l, i, d, See(l, i, d));
    if s.CanMove(l, i) {
      WalkStaysBelow(s, root, l, i + 1, d, true);
      forall q | q in s.Beyond(l, i, d, true) && q.See?
        ensures Follows(Key(s.b, See(l, i, d)), Key(s.b, q))
      {
        LineBeforeNext(s, root, l, i, d, See(l, i, d), q);
      }
    }
  }

  lemma {:induction false} LiftFollow(s: Search, root: ListId, p: Step, start: Step, steps: seq<Step>)
    requires p.See? && start.See? && Key(s.b, p) <= Key(s.b, start) && AllFollow(s, root, p, steps)
    ensures AllFollow(s, root, start, steps)
  {
    hide Trail, Before, Reachable;
    forall q | q in steps && q.See?
      ensures Follows(Key(s.b, start), Key(s.b, q))
    {
      FollowsExtension(Key(s.b, p), Key(s.b, start), Key(s.b, q));
    }
  }

  lemma {:induction false} FollowConcat(s: Search, root: ListId, start: Step, all: seq<Step>, x: seq<Step>,
                                        leave: Step, y: seq<Step>)
    requires start.See? && leave.Leave? && all == x + ([leave] + y)
    requires AllFollow(s, root, start, x) && AllFollow(s, root, start, y)
    ensures AllFollow(s, root, start, all)
  {
    hide Trail, Before, Reachable;
  }

  lemma {:induction false} AfterParts(s: Search, l: ListId, i: nat, d: nat)
    requires !s.direction.NoDirection? && d >= 1
    ensures d == 1 ==> s.After(l, i, d, true) == s.Beyond(l, i, d, true)
    ensures d > 1 && Ascends(s.b, l) && s.b[l].parent.line < |Items(s.b, s.b[l].parent.list)| ==>
              s.After(l, i, d, true) ==
              s.Beyond(l, i, d, true) + ([Leave(l, d)] + s.After(s.b[l].parent.list, s.b[l].parent.line, d - 1, true))
  {
    hide Search.Walk;
    assert s.Beyond(l, i, d, true) + [] == s.Beyond(l, i, d, true);
  }

  lemma {:induction false} AfterFollows(s: Search, root: ListId, l: ListId, i: nat, d: nat)
    requires s.direction.Forward? && Consistent(s.b) && Reachable(s, root, l, d) && i < |Items(s.b, l)|
    ensures AllFollow(s, root, See(l, i, d), s.After(l, i, d, true))
    decreases d
  {
    hide Search.Walk, Search.After, Search.Beyond, Search.Up, Before, AllFollow, Search.Enters;
    BeyondFollows(s, root, l, i, d);
    AfterParts(s, l, i, d);
    if d > 1 {
      var p, j := s.b[l].parent.list, s.b[l].parent.line;
      AfterFollows(s, root, p, j, d - 1);
      LiftFollow(s, root, See(p, j, d - 1), See(l, i, d), s.After(p, j, d - 1, true));
      FollowConcat(s, root, See(l, i, d), s.After(l, i, d, true), s.Beyond(l, i, d, true), Leave(l, d),
                   s.After(p, j, d - 1, true));
    }
  }

  lemma {:induction false} AfterSorted(s: Search, root: ListId, start: Step)
    requires s.direction.Forward? && Consistent(s.b) && ReachableItem(s, root, start)
    ensures Sorted(s.b, s.After(start.list, start.line, start.depth, true))
  {
    hide Search.Walk, Search.Up, Search.After, Trail, Before, Inner, Sorted;
    RootReachable(s, root, start.list, start.depth);
    WalkSorted(s, root, root, 0, 1, true);
    var pre := FromIsSuffix(s, root, start.list, start.line, start.depth);
    FromParts(s, start.list, start.line, start.depth);
    var part, after := [start] + Inner(s, start.list, start.line, start.depth),
                       s.After(start.list, start.line, start.depth, true);
    Extend(s.Walk(root, 0, 1, true), pre, part, after);
    SuffixSorted(s.b, pre + part, after);
  }

  // Exactly the reachable items which come after an item and which are not below it are
  // left after that item.
  lemma {:induction false} AfterIsWhatFollows(s: Search, root: ListId, start: Step, q: Step)
    requires s.direction.Forward? && Consistent(s.b) && ReachableItem(s, root, start)
    requires ReachableItem(s, root, q)
    ensures q in s.After(start.list, start.line, start.depth, true) <==> Follows(Key(s.b, start), Key(s.b, q))
  {
    hide Search.Walk, Search.Up, Trail, Before;
    var l, i, d := start.list, start.line, start.depth;
    var all, after := s.Walk(root, 0, 1, true), s.After(l, i, d, true);
    AfterFollows(s, root, l, i, d);
    RootReachable(s, root, l, d);
    WalkSorted(s, root, root, 0, 1, true);
    var pre := FromIsSuffix(s, root, l, i, d);
    FromParts(s, l, i, d);
    assert all == pre + ([start] + Inner(s, l, i, d)) + after;
    if Follows(Key(s.b, start), Key(s.b, q)) {
      var pre' := FromIsSuffix(s, root, q.list, q.line, q.depth);
      FromParts(s, q.list, q.line, q.depth);
      assert all[|pre'|] == q;
      assert all[|pre|] == start;
      InnerBelow(s, root, l, i, d);
      BeforeTrichotomy(Key(s.b, start), Key(s.b, q));
      assert |pre'| >= |pre|;
      assert q in ([start] + Inner(s, l, i, d)) + after;
    }
  }

  lemma {:induction false} RootReachable(s: Search, root: ListId, l: ListId, d: nat)
    requires Reachable(s, root, l, d)
    ensures Reachable(s, root, root, 1)
    decreases d
  {
    if d > 1 {
      RootReachable(s, root, s.b[l].parent.list, d - 1);
    }
  }

  lemma SuffixSorted(b: Broker, first: seq<Step>, second: seq<Step>)
    requires Sorted(b, first + second)
    ensures Sorted(b, second)
  {
    forall x, y | 0 <= x < y < |second| && second[x].See? && second[y].See?
      ensures Before(Key(b, second[x]), Key(b, second[y]))
    {
      var steps := first + second;
      assert steps[|first| + x] == second[x] && steps[|first| + y] == second[y];
    }
  }

  // ---------------------------------------------------------------- forward search

  // An item at which the search stops: a file, or something the search fails on
  ghost predicate Stops(s: Search, root: ListId, p: Step) {
    ReachableItem(s, root, p) && !s.Verdict(p).Exhausted?
  }

  // The search cannot get past an item which the broker does not deliver, nor past a directory for which the broker
  // reports one of these errors, unless it does not go into directories anyway.
  predicate FailsOn(s: Search, p: Step)
    requires p.See? && p.line < |Items(s.b, p.list)|
  {
    match Items(s.b, p.list)[p.line]
    case File => false
    case Unreadable => true
    case Directory(Answer(_)) => false
    case Directory(Throws(e)) =>
      && s.mode.DepthFirst? && p.depth < 100
      && (e == OK || e == INTERNAL || e == INVALID_ID || e == INVALID_URI || e == INCONSISTENT || e == OUT_OF_RANGE
          || e == EMPTY || e == OVERFLOWN || e == UNDERFLOWN || e == INVALID_STREAM_URL || e == INVALID_STRBO_URL
          || e == NOT_FOUND)
  }

  // Stops are files, and what the search cannot get past.
  lemma StopsIff(s: Search, root: ListId, q: Step)
    requires !s.direction.NoDirection? && ReachableItem(s, root, q)
    ensures Stops(s, root, q) <==> Items(s.b, q.list)[q.line].File? || FailsOn(s, q)
    ensures FailsOn(s, q) <==>
            match Items(s.b, q.list)[q.line]
            case File => false
            case Unreadable => true
            case Directory(lookup) =>
              && s.mode.DepthFirst? && q.depth < 100 && lookup.Throws?
              && lookup.error in {OK, INTERNAL, INVALID_ID, INVALID_URI, INCONSISTENT, OUT_OF_RANGE, EMPTY, OVERFLOWN,
                                  UNDERFLOWN, INVALID_STREAM_URL, INVALID_STRBO_URL, NOT_FOUND}
  {
    hide Reachable;
  }

  // `q` is the stop which comes next after item `start` and what is below it, in preorder.
  ghost predicate IsNextStop(s: Search, root: ListId, start: Step, q: Step)
    requires start.See?
  {
    && Stops(s, root, q)
    && Follows(Key(s.b, start), Key(s.b, q))
    && forall r :: Stops(s, root, r) && Follows(Key(s.b, start), Key(s.b, r)) ==>
         r == q || Before(Key(s.b, q), Key(s.b, r))
  }

  ghost predicate NoStopFollows(s: Search, root: ListId, start: Step)
    requires start.See?
  {
    forall r :: Stops(s, root, r) ==> !Follows(Key(s.b, start), Key(s.b, r))
  }

  lemma {:induction false} FirstStop(s: Search, steps: seq<Step>) returns (k: nat)
    ensures s.First(steps).Exhausted? ==> k == |steps|
    ensures !s.First(steps).Exhausted? ==> k < |steps| && s.Verdict(steps[k]) == s.First(steps)
    ensures forall m :: 0 <= m < k ==> s.Verdict(steps[m]).Exhausted?
  {
    k := 0;
    if steps != [] && s.Verdict(steps[0]).Exhausted? {
      k := FirstStop(s, steps[1..]);
      k := k + 1;
    }
  }

  // The way up is open everywhere.
  lemma {:induction false} LeavesPass(s: Search, root: ListId, l: ListId, i: nat, d: nat, hs: bool)
    requires s.direction.Forward? && Consistent(s.b) && Reachable(s, root, l, d)
    ensures forall q :: q in s.Walk(l, i, d, hs) && q.Leave? ==> s.Verdict(q).Exhausted?
    decreases if d < MAX_DIRECTORY_DEPTH then MAX_DIRECTORY_DEPTH - d else 0, |Items(s.b, l)| - i
  {
    hide Search.Walk, Trail;
    if i < |Items(s.b, l)| {
      var e := s.Enters(l, i, d);
      WalkParts(s, l, i, d, hs);
      if s.CanMove(l, i) {
        LeavesPass(s, root, l, i + 1, d, hs || e);
      }
      if e {
        assert LeadsTo(s.b, l, i, s.Child(l, i));
        EnterReachable(s, root, l, i, d);
        LeavesPass(s, root, s.Child(l, i), 0, d + 1, false);
      }
    } else {
      s.WalkEnd(l, i, d, hs);
    }
  }

  lemma {:induction false} AfterLeavesPass(s: Search, root: ListId, l: ListId, i: nat, d: nat)
    requires s.direction.Forward? && Consistent(s.b) && Reachable(s, root, l, d) && i < |Items(s.b, l)|
    ensures forall q :: q in s.After(l, i, d, true) && q.Leave? ==> s.Verdict(q).Exhausted?
    decreases d
  {
    hide Search.Walk, Search.After, Search.Up, Trail, Before;
    AfterParts(s, l, i, d);
    if s.CanMove(l, i) {
      LeavesPass(s, root, l, i + 1, d, true);
    }
    if d > 1 {
      var p, j := s.b[l].parent.list, s.b[l].parent.line;
      AfterLeavesPass(s, root, p, j, d - 1);
    }
  }

  lemma {:induction false} FirstStopLeads(s: Search, root: ListId, l: ListId, i: nat, d: nat, k: nat, r: Step)
    requires s.direction.Forward? && Consistent(s.b) && Reachable(s, root, l, d) && i < |Items(s.b, l)|
    requires k <= |s.After(l, i, d, true)|
    requires forall m :: 0 <= m < k ==> s.Verdict(s.After(l, i, d, true)[m]).Exhausted?
    requires Stops(s, root, r) && Follows(Key(s.b, See(l, i, d)), Key(s.b, r))
    ensures k < |s.After(l, i, d, true)|
    ensures var q := s.After(l, i, d, true)[k]; q.See? ==> r == q || Before(Key(s.b, q), Key(s.b, r))
  {
    var after := s.After(l, i, d, true);
    AfterIsWhatFollows(s, root, See(l, i, d), r);
    AfterSorted(s, root, See(l, i, d));
    var m :| 0 <= m < |after| && after[m] == r;
    assert m >= k;
  }

  // The outcome of a search forward from `start` is the next file in preorder, or the end if there is
  // nothing to stop at, or a failure if the next stop isn't a file.
  ghost predicate IsNextFile(s: Search, root: ListId, start: Step, o: Outcome)
    requires start.See?
  {
    match o
    case Exhausted => NoStopFollows(s, root, start)
    case FoundAt(l, i, d) => IsNextStop(s, root, start, See(l, i, d)) && Items(s.b, l)[i].File?
    case Fault => exists q :: IsNextStop(s, root, start, q) && FailsOn(s, q)
    case AssertionFails => false
  }

  // Forward FIND_NEXT ends where it should.
  lemma {:induction false} FindNextIsNextFile(s: Search, root: ListId, l: ListId, i: nat, d: nat)
    requires s.direction.Forward? && Consistent(s.b) && Reachable(s, root, l, d) && i < |Items(s.b, l)|
    ensures IsNextFile(s, root, See(l, i, d), s.First(s.After(l, i, d, true)))
  {
    var start, after := See(l, i, d), s.After(l, i, d, true);
    var k := FirstStop(s, after);
    forall r | Stops(s, root, r) && Follows(Key(s.b, start), Key(s.b, r))
      ensures k < |after| && (after[k].See? ==> r == after[k] || Before(Key(s.b, after[k]), Key(s.b, r)))
    {
      FirstStopLeads(s, root, l, i, d, k, r);
    }
    if k < |after| {
      AfterFollows(s, root, l, i, d);
      AfterLeavesPass(s, root, l, i, d);
      assert after[k] in after;
      assert IsNextStop(s, root, start, after[k]);
      StopsIff(s, root, after[k]);
    }
  }

  // Between the start and the next stop, there is nothing but directories the search can get past.
  ghost predicate PassesBetween(s: Search, root: ListId, start: Step, q: Step)
    requires start.See? && q.See?
  {
    forall r :: ReachableItem(s, root, r) && Follows(Key(s.b, start), Key(s.b, r))
                && Before(Key(s.b, r), Key(s.b, q)) ==>
      Items(s.b, r.list)[r.line].Directory? && !FailsOn(s, r)
  }

  lemma NextStopPasses(s: Search, root: ListId, start: Step, q: Step)
    requires !s.direction.NoDirection? && start.See? && IsNextStop(s, root, start, q)
    ensures PassesBetween(s, root, start, q)
  {
    hide Key, Reachable;
    forall r | ReachableItem(s, root, r) && Follows(Key(s.b, start), Key(s.b, r)) && Before(Key(s.b, r), Key(s.b, q))
      ensures Items(s.b, r.list)[r.line].Directory? && !FailsOn(s, r)
    {
      StopsIff(s, root, r);
      BeforeTrichotomy(Key(s.b, q), Key(s.b, r));
    }
  }
}
