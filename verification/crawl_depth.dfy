// Searches started at depth 0 on a list which has been entered before
// (src/view_filebrowser.cc:1045-1051, src/directory_crawler_find_next_op.cc:659-663): when they end
// where they are meant to, and when they do not.
module CrawlDepth {
  import opened CrawlTree
  import opened CrawlOrder
  import opened CrawlBack
  import opened Wrappers

  // An operation which is started at depth 0 on a list already entered takes the end of the first
  // directory it goes into for the end of everything.  Compared to that, the same search at depth 1
  // is the one which is intended.

  // An outcome at the same place, one level further down
  function OneDeeper(o: Outcome): Outcome {
    if o.FoundAt? then o.(depth := o.depth + 1) else o
  }

  // The first directory the search goes into, unless it stops in front of it
  function FirstDirectory(s: Search, l: ListId, i: nat, hs: bool): (e: Option<nat>)
    ensures e.Some? ==> s.Enters(l, e.value, 0) && e.value < |Items(s.b, l)|
    decreases if s.direction.Forward? then |Items(s.b, l)| - i else i
  {
    if i >= |Items(s.b, l)| || s.Blind(i, hs) || !s.Verdict(See(l, i, 0)).Exhausted? then None
    else if s.Enters(l, i, 0) then Some(i)
    else if s.CanMove(l, i) then FirstDirectory(s, l, s.Moved(i), hs)
    else None
  }

  // The first stop inside of a directory whose contents are taken to be at depth `d`
  function Inside(s: Search, l: ListId, e: nat, d: nat): (o: Outcome)
    requires s.Enters(l, e, 0)
    ensures !o.AssertionFails?
  {
    s.First(s.Walk(s.Child(l, e), s.Entry(s.Child(l, e)), d, false))
  }

  // The first stop behind a directory in list `l` at depth 1
  function Behind(s: Search, l: ListId, e: nat): Outcome
    requires s.Enters(l, e, 0)
  {
    s.First([Leave(s.Child(l, e), 2)] + s.Beyond(l, e, 1, true))
  }

  // What is found at depth 0, and what is found at depth 1
  lemma {:induction false} ZeroAndOne(s: Search, l: ListId, i: nat, hs: bool)
    requires !s.direction.NoDirection?
    ensures match FirstDirectory(s, l, i, hs)
            case None => s.First(s.From(l, i, 1, hs)) == OneDeeper(s.First(s.From(l, i, 0, hs)))
            case Some(e) =>
              && s.First(s.From(l, i, 0, hs)) == Inside(s, l, e, 1)
              && s.First(s.From(l, i, 1, hs)) == Inside(s, l, e, 2).Then(Behind(s, l, e))
    decreases if s.direction.Forward? then |Items(s.b, l)| - i else i
  {
    hide Search.Walk, Search.First;
    FromTop(s, l, i, hs);
    if i >= |Items(s.b, l)| || s.Blind(i, hs) {
      s.WalkEnd(l, i, 1, hs);
    } else {
      s.WalkUnfold(l, i, 1, hs);
      if s.Enters(l, i, 0) {
        var c := s.Child(l, i);
        var inner, rest := s.Walk(c, s.Entry(c), 2, false), [Leave(c, 2)] + s.Beyond(l, i, 1, true);
        s.FirstCons(See(l, i, 1), inner + rest);
        s.FirstCons(See(l, i, 0), s.Walk(c, s.Entry(c), 1, false));
        s.FirstAppend(inner, rest);
      } else {
        s.FirstCons(See(l, i, 1), s.Beyond(l, i, 1, hs));
        s.FirstCons(See(l, i, 0), if s.CanMove(l, i) then s.Stray(l, s.Moved(i), hs) else []);
        if s.CanMove(l, i) {
          ZeroAndOne(s, l, s.Moved(i), hs);
          FromTop(s, l, s.Moved(i), hs);
        }
      }
    }
  }

  lemma FromTop(s: Search, l: ListId, i: nat, hs: bool)
    ensures s.From(l, i, 0, hs) == s.Stray(l, i, hs) && s.From(l, i, 1, hs) == s.Walk(l, i, 1, hs)
    ensures s.First([]) == Exhausted
  {
    assert s.Walk(l, i, 1, hs) + [] == s.Walk(l, i, 1, hs);
  }

  // ---------------------------------------------------------------- the same walk one level further down

  // One level further down, there is not more to stop at.
  lemma {:induction false} DeeperExhausted(s: Search, l: ListId, i: nat, d: nat, hs: bool, hs': bool)
    requires !s.direction.NoDirection? && (hs' ==> hs) && s.First(s.Walk(l, i, d, hs)).Exhausted?
    ensures s.First(s.Walk(l, i, d + 1, hs')).Exhausted?
    decreases if d < MAX_DIRECTORY_DEPTH then MAX_DIRECTORY_DEPTH - d else 0,
              if s.direction.Forward? then |Items(s.b, l)| - i else i
  {
    hide Search.Walk, Search.First;
    if i >= |Items(s.b, l)| || s.Blind(i, hs') {
      s.WalkEnd(l, i, d + 1, hs');
      FromTop(s, l, i, hs);
    } else {
      WalkFirst(s, l, i, d, hs);
      WalkFirst(s, l, i, d + 1, hs');
      if s.CanMove(l, i) {
        DeeperExhausted(s, l, s.Moved(i), d, hs || s.Enters(l, i, d), hs' || s.Enters(l, i, d + 1));
      }
      if s.Enters(l, i, d + 1) {
        DeeperExhausted(s, s.Child(l, i), s.Entry(s.Child(l, i)), d + 1, false, false);
      }
    }
  }

  // The first stop of a walk, from its parts
  lemma {:induction false} WalkFirst(s: Search, l: ListId, i: nat, d: nat, hs: bool)
    requires !s.direction.NoDirection? && i < |Items(s.b, l)| && !s.Blind(i, hs)
    ensures var rest := s.First(if s.CanMove(l, i) then s.Walk(l, s.Moved(i), d, hs || s.Enters(l, i, d)) else []);
            s.First(s.Walk(l, i, d, hs)) ==
            if s.Enters(l, i, d) then
              var c := s.Child(l, i);
              s.First(s.Walk(c, s.Entry(c), d + 1, false)).Then(s.Verdict(Leave(c, d + 1)).Then(rest))
            else s.Verdict(See(l, i, d)).Then(rest)
  {
    hide Search.Walk, Search.First;
    s.WalkUnfold(l, i, d, hs);
    if s.Enters(l, i, d) {
      var c := s.Child(l, i);
      var inner, rest := s.Walk(c, s.Entry(c), d + 1, false), s.Beyond(l, i, d, true);
      s.FirstCons(See(l, i, d), inner + ([Leave(c, d + 1)] + rest));
      s.FirstAppend(inner, [Leave(c, d + 1)] + rest);
      s.FirstCons(Leave(c, d + 1), rest);
    } else {
      s.FirstCons(See(l, i, d), s.Beyond(l, i, d, hs));
    }
  }

  // The walk stays above the two deepest levels allowed.
  ghost predicate Shallow(s: Search, l: ListId, i: nat, d: nat, hs: bool) {
    forall p :: p in s.Walk(l, i, d, hs) ==> p.depth + 1 < MAX_DIRECTORY_DEPTH
  }

  // Then, one level further down, it is the same walk.
  lemma {:induction false} DeeperSame(s: Search, l: ListId, i: nat, d: nat, hs: bool)
    requires !s.direction.NoDirection? && Shallow(s, l, i, d, hs)
    ensures s.First(s.Walk(l, i, d + 1, hs)) == OneDeeper(s.First(s.Walk(l, i, d, hs)))
    decreases if d < MAX_DIRECTORY_DEPTH then MAX_DIRECTORY_DEPTH - d else 0,
              if s.direction.Forward? then |Items(s.b, l)| - i else i
  {
    hide Search.Walk, Search.First;
    if i >= |Items(s.b, l)| || s.Blind(i, hs) {
      s.WalkEnd(l, i, d, hs);
      s.WalkEnd(l, i, d + 1, hs);
      FromTop(s, l, i, hs);
    } else {
      FromTop(s, l, i, hs);
      s.WalkUnfold(l, i, d, hs);
      WalkFirst(s, l, i, d, hs);
      WalkFirst(s, l, i, d + 1, hs);
      assert See(l, i, d) in s.Walk(l, i, d, hs);
      if s.Enters(l, i, d) {
        var c := s.Child(l, i);
        assert Leave(c, d + 1) in s.Walk(l, i, d, hs);
        DeeperSame(s, c, s.Entry(c), d + 1, false);
      }
      if s.CanMove(l, i) {
        DeeperSame(s, l, s.Moved(i), d, hs || s.Enters(l, i, d));
      }
    }
  }

  // What is found at this place is not out of reach one level further down: on the deepest level allowed, nothing
  // is found, and searching backward, line 0 isn't looked at on that level unless the first item has been skipped.
  predicate StaysInReach(s: Search, o: Outcome, d: nat, hs: bool)
    requires o.FoundAt?
  {
    && o.depth < MAX_DIRECTORY_DEPTH
    && (s.direction.Forward? || o.depth + 1 < MAX_DIRECTORY_DEPTH || o.line > 0 || (d == o.depth && hs))
  }

  // A file found is found one level further down as well if and only if it stays in reach.
  lemma {:induction false} DeeperFound(s: Search, l: ListId, i: nat, d: nat, hs: bool, hs': bool)
    requires !s.direction.NoDirection? && d < MAX_DIRECTORY_DEPTH && s.First(s.Walk(l, i, d, hs)).FoundAt?
    requires (hs' ==> hs) && (d + 1 < MAX_DIRECTORY_DEPTH ==> hs == hs')
    ensures var o := s.First(s.Walk(l, i, d, hs));
            s.First(s.Walk(l, i, d + 1, hs')) == OneDeeper(o) <==> StaysInReach(s, o, d, hs')
  {
    hide Search.Walk, Search.First;
    FoundInRange(s, l, i, d, hs);
    FoundInRange(s, l, i, d + 1, hs');
    if StaysInReach(s, s.First(s.Walk(l, i, d, hs)), d, hs') {
      DeeperStays(s, l, i, d, hs, hs');
    }
  }

  lemma {:induction false} DeeperStays(s: Search, l: ListId, i: nat, d: nat, hs: bool, hs': bool)
    requires !s.direction.NoDirection? && d < MAX_DIRECTORY_DEPTH && s.First(s.Walk(l, i, d, hs)).FoundAt?
    requires (hs' ==> hs) && (d + 1 < MAX_DIRECTORY_DEPTH ==> hs == hs')
    requires StaysInReach(s, s.First(s.Walk(l, i, d, hs)), d, hs')
    ensures s.First(s.Walk(l, i, d + 1, hs')) == OneDeeper(s.First(s.Walk(l, i, d, hs)))
    decreases MAX_DIRECTORY_DEPTH - d, if s.direction.Forward? then |Items(s.b, l)| - i else i
  {
    hide Search.Walk, Search.First;
    FromTop(s, l, i, hs);
    if i >= |Items(s.b, l)| || s.Blind(i, hs) {
      s.WalkEnd(l, i, d, hs);
    } else {
      WalkFirst(s, l, i, d, hs);
      FoundInRange(s, l, i, d, hs);
      if s.Blind(i, hs') {
        DeepestLineZero(s, l, d, hs);
      } else {
        WalkFirst(s, l, i, d + 1, hs');
        if s.Enters(l, i, d) {
          var c := s.Child(l, i);
          var inner := s.First(s.Walk(c, s.Entry(c), d + 1, false));
          FoundInRange(s, c, s.Entry(c), d + 1, false);
          if inner.FoundAt? && d + 1 < MAX_DIRECTORY_DEPTH {
            DeeperStays(s, c, s.Entry(c), d + 1, false, false);
          } else if inner.Exhausted? {
            DeeperExhausted(s, c, s.Entry(c), d + 1, false, false);
          }
        }
        if s.CanMove(l, i) && s.First(s.Walk(l, s.Moved(i), d, hs || s.Enters(l, i, d))) ==
           s.First(s.Walk(l, i, d, hs)) {
          DeeperStays(s, l, s.Moved(i), d, hs || s.Enters(l, i, d), hs' || s.Enters(l, i, d + 1));
        }
      }
    }
  }

  // Looking at line 0 on the level above the deepest one either finds a file there, or one on the deepest level.
  lemma {:induction false} DeepestLineZero(s: Search, l: ListId, d: nat, hs: bool)
    requires s.direction.Backward? && d + 1 == MAX_DIRECTORY_DEPTH && s.First(s.Walk(l, 0, d, hs)).FoundAt?
    ensures var o := s.First(s.Walk(l, 0, d, hs)); o.depth == d + 1 || (o.depth == d && o.line == 0)
  {
    hide Search.Walk, Search.First;
    FromTop(s, l, 0, hs);
    if 0 >= |Items(s.b, l)| || s.Blind(0, hs) {
      s.WalkEnd(l, 0, d, hs);
    } else {
      WalkFirst(s, l, 0, d, hs);
      if s.Enters(l, 0, d) {
        FoundInRange(s, s.Child(l, 0), s.Entry(s.Child(l, 0)), d + 1, false);
      }
    }
  }

  // Nothing is found below the deepest level allowed, and searching backward, nothing is found in line 0 on that
  // level, except in the list the search begins with.
  lemma {:induction false} FoundInRange(s: Search, l: ListId, i: nat, d: nat, hs: bool)
    requires !s.direction.NoDirection?
    ensures var o := s.First(s.Walk(l, i, d, hs));
            o.FoundAt? ==>
              && d <= o.depth && (d <= MAX_DIRECTORY_DEPTH ==> o.depth <= MAX_DIRECTORY_DEPTH)
              && (s.direction.Backward? && o.depth == MAX_DIRECTORY_DEPTH && o.line == 0 ==>
                   d == MAX_DIRECTORY_DEPTH && hs)
    decreases if d < MAX_DIRECTORY_DEPTH then MAX_DIRECTORY_DEPTH - d else 0,
              if s.direction.Forward? then |Items(s.b, l)| - i else i
  {
    hide Search.Walk, Search.First;
    FromTop(s, l, i, hs);
    if i >= |Items(s.b, l)| || s.Blind(i, hs) {
      s.WalkEnd(l, i, d, hs);
    } else {
      WalkFirst(s, l, i, d, hs);
      if s.Enters(l, i, d) {
        FoundInRange(s, s.Child(l, i), s.Entry(s.Child(l, i)), d + 1, false);
      }
      if s.CanMove(l, i) {
        FoundInRange(s, l, s.Moved(i), d, hs || s.Enters(l, i, d));
      }
    }
  }

  // List 1 holds a file, a directory, and a file, and the directory (list 2) is empty.
  function FileBehindEmpty(): Broker {
    map[1 := Listing([File, Directory(Answer(2)), File], NoLink), 2 := Listing([], Link(1, 1))]
  }

  // After the first file has been found at depth 0, the other one is never found.
  lemma DepthZeroMissesFile()
    ensures var s := Search(FileBehindEmpty(), DepthFirst, Forward);
            && Consistent(s.b)
            && s.First(s.After(1, 0, 0, true)) == Exhausted
            && s.First(s.After(1, 0, 1, true)) == FoundAt(1, 2, 1)
  {
    var s := Search(FileBehindEmpty(), DepthFirst, Forward);
    ZeroAndOne(s, 1, 1, true);
    assert s.Walk(2, 0, 1, false) == [];
    assert s.After(1, 0, 0, true) == s.From(1, 1, 0, true);
    assert s.Walk(2, 0, 2, false) == [];
    assert s.Walk(1, 2, 1, true) == [See(1, 2, 1)];
    WalkParts(s, 1, 1, 1, true);
    assert s.After(1, 0, 1, true) == [See(1, 1, 1)] + ([Leave(2, 2)] + [See(1, 2, 1)]);
    s.FirstCons(See(1, 1, 1), [Leave(2, 2)] + [See(1, 2, 1)]);
    s.FirstCons(Leave(2, 2), [See(1, 2, 1)]);
    s.FirstOne(See(1, 2, 1));
  }

  // ---------------------------------------------------------------- when depth 0 does not matter

  lemma {:induction false} FoundIsInWalk(s: Search, steps: seq<Step>)
    ensures var o := s.First(steps); o.FoundAt? ==> See(o.list, o.line, o.depth) in steps
  {
    var _ := FirstStop(s, steps);
  }

  lemma {:induction false} TrailThrough(s: Search, c: ListId, l: ListId, d: nat)
    requires Reachable(s, c, l, d) && Ascends(s.b, c)
    ensures Trail(s.b, l, d + 1) != [] && Trail(s.b, l, d + 1)[0] == s.b[c].parent.line
    decreases d
  {
    if d > 1 {
      TrailThrough(s, c, s.b[l].parent.list, d - 1);
    } else {
      assert Trail(s.b, l, 2) == Trail(s.b, s.b[l].parent.list, 1) + [s.b[l].parent.line];
    }
  }

  lemma {:induction false} InsideKey(s: Search, l: ListId, e: nat, c: ListId, o: Outcome)
    requires Consistent(s.b) && l in s.b && LeadsTo(s.b, l, e, c)
    requires o.FoundAt? && Reachable(s, c, o.list, o.depth)
    ensures Key(s.b, See(o.list, o.line, o.depth + 1))[0] == e
  {
    hide Trail, Reachable;
    TrailThrough(s, c, o.list, o.depth);
  }

  // What is inside of a directory isn't found behind it as well.
  lemma {:induction false} InsideIsNotBehind(s: Search, l: ListId, e: nat, o: Outcome)
    requires Consistent(s.b) && l in s.b && !s.direction.NoDirection? && s.Enters(l, e, 0)
    requires o.FoundAt? && o == Inside(s, l, e, 1)
    ensures Behind(s, l, e) != OneDeeper(o)
  {
    hide Search.Walk, Search.First, Search.Verdict, Search.Beyond, InSight, Reachable, Consistent, Key, Trail;
    var c := s.Child(l, e);
    assert LeadsTo(s.b, l, e, c);
    s.FirstCons(Leave(c, 2), s.Beyond(l, e, 1, true));
    LeaveVerdict(s, c, 2);
    if s.Verdict(Leave(c, 2)).Exhausted? && s.First(s.Beyond(l, e, 1, true)) == OneDeeper(o) {
      var inner, outer := See(o.list, o.line, o.depth), See(o.list, o.line, o.depth + 1);
      FoundIsInWalk(s, s.Walk(c, s.Entry(c), 1, false));
      FoundIsInWalk(s, s.Beyond(l, e, 1, true));
      InsideReachable(s, c, s.Entry(c), inner);
      InsideKey(s, l, e, c, o);
      BehindKey(s, l, e, outer);
    }
  }

  lemma LeaveVerdict(s: Search, c: ListId, d: nat)
    ensures !s.Verdict(Leave(c, d)).FoundAt?
  {
  }

  lemma {:induction false} InsideReachable(s: Search, c: ListId, i: nat, q: Step)
    requires Consistent(s.b) && c in s.b && !s.direction.NoDirection? && q.See? && q in s.Walk(c, i, 1, false)
    ensures Reachable(s, c, q.list, q.depth)
  {
    hide Search.Walk, InSight;
    if s.direction.Forward? {
      WalkStaysBelow(s, c, c, i, 1, false);
    } else if i < |Items(s.b, c)| {
      WalkIsWhatIsInSight(s, c, c, i, 1, false, q);
    } else {
      s.WalkEnd(c, i, 1, false);
    }
  }

  lemma {:induction false} BehindKey(s: Search, l: ListId, e: nat, q: Step)
    requires Consistent(s.b) && l in s.b && !s.direction.NoDirection? && e < |Items(s.b, l)|
    requires q.See? && q in s.Beyond(l, e, 1, true)
    ensures Key(s.b, q)[0] != e
  {
    hide Search.Walk, InSight, AtOrAbove;
    if s.direction.Forward? {
      WalkStaysBelow(s, l, l, e + 1, 1, true);
      assert AtOrBelow(s, l, l, e + 1, 1, q);
    } else {
      BeyondIsWhatIsInSight(s, l, l, e, 1, true, q);
      InSightIsAbove(s, l, 1, e - 1, true, q);
      KeyAbove(s, l, l, 1, e - 1, q);
    }
  }

  // The search at depth 0 ends as intended if and only if it doesn't get to any directory it goes into, or
  // there is nothing to stop at in the first such directory and behind it, or it finds a file inside of that
  // directory which is not on the deepest level allowed nor, searching backward, in line 0 on the level above.  (If
  // it fails inside, then it may as well be meant to fail somewhere else.)
  ghost predicate EndsAsIntended(s: Search, l: ListId, i: nat, hs: bool) {
    match FirstDirectory(s, l, i, hs)
    case None => true
    case Some(e) =>
      match Inside(s, l, e, 1)
      case Exhausted => Behind(s, l, e).Exhausted?
      case FoundAt(_, line, depth) =>
        depth < MAX_DIRECTORY_DEPTH && (s.direction.Forward? || depth + 1 < MAX_DIRECTORY_DEPTH || line > 0)
      case Fault => Inside(s, l, e, 2).Fault? || (Inside(s, l, e, 2).Exhausted? && Behind(s, l, e).Fault?)
      case AssertionFails => false
  }

  lemma {:induction false} InsideStays(s: Search, l: ListId, e: nat)
    requires Consistent(s.b) && l in s.b && !s.direction.NoDirection? && s.Enters(l, e, 0)
    requires Inside(s, l, e, 1).FoundAt?
    ensures Inside(s, l, e, 2).Then(Behind(s, l, e)) == OneDeeper(Inside(s, l, e, 1)) <==>
            StaysInReach(s, Inside(s, l, e, 1), 1, false)
  {
    hide Search.Walk, Search.First, Search.From, Consistent;
    var c := s.Child(l, e);
    DeeperFound(s, c, s.Entry(c), 1, false, false);
    InsideIsNotBehind(s, l, e, Inside(s, l, e, 1));
  }

  lemma {:induction false} DepthZeroAgreesIff(s: Search, l: ListId, i: nat, hs: bool)
    requires Consistent(s.b) && l in s.b && !s.direction.NoDirection?
    ensures s.First(s.From(l, i, 1, hs)) == OneDeeper(s.First(s.From(l, i, 0, hs))) <==> EndsAsIntended(s, l, i, hs)
  {
    hide Search.Walk, Search.First, Search.From;
    ZeroAndOne(s, l, i, hs);
    var first := FirstDirectory(s, l, i, hs);
    if first.Some? {
      var c := s.Child(l, first.value);
      var o := Inside(s, l, first.value, 1);
      if o.Exhausted? {
        DeeperExhausted(s, c, s.Entry(c), 1, false, false);
      } else if o.FoundAt? {
        InsideStays(s, l, first.value);
      }
    }
  }

  // As long as directories are not nested too deeply, the level they are taken to be at makes no
  // difference: it is enough that the search stops inside of the first directory it goes into.
  lemma {:induction false} DepthZeroAgreesIfShallow(s: Search, l: ListId, i: nat, hs: bool)
    requires Consistent(s.b) && l in s.b && !s.direction.NoDirection?
    requires var first := FirstDirectory(s, l, i, hs);
             first.Some? ==> var c := s.Child(l, first.value); Shallow(s, c, s.Entry(c), 1, false)
    ensures s.First(s.From(l, i, 1, hs)) == OneDeeper(s.First(s.From(l, i, 0, hs))) <==>
            var first := FirstDirectory(s, l, i, hs);
            first.Some? && Inside(s, l, first.value, 1).Exhausted? ==> Behind(s, l, first.value).Exhausted?
  {
    hide Search.Walk, Search.First, Search.From, Shallow;
    DepthZeroAgreesIff(s, l, i, hs);
    var first := FirstDirectory(s, l, i, hs);
    if first.Some? {
      var c := s.Child(l, first.value);
      DeeperSame(s, c, s.Entry(c), 1, false);
      ShallowFound(s, c, s.Entry(c), 1, false);
    }
  }

  lemma ShallowFound(s: Search, l: ListId, i: nat, d: nat, hs: bool)
    requires Shallow(s, l, i, d, hs)
    ensures var o := s.First(s.Walk(l, i, d, hs)); o.FoundAt? ==> o.depth + 1 < MAX_DIRECTORY_DEPTH
  {
    hide Search.Walk, Search.First;
    FoundIsInWalk(s, s.Walk(l, i, d, hs));
  }

  // The same for a FIND_NEXT operation: it begins behind the item in line `i`.
  lemma {:induction false} SkipAtDepthZero(s: Search, l: ListId, i: nat, hs: bool)
    requires !s.direction.NoDirection?
    ensures s.CanMove(l, i) ==>
              && s.After(l, i, 0, hs) == s.From(l, s.Moved(i), 0, hs)
              && s.After(l, i, 1, hs) == s.From(l, s.Moved(i), 1, hs)
    ensures !s.CanMove(l, i) ==> s.After(l, i, 0, hs) == s.After(l, i, 1, hs) == []
  {
  }

  // ---------------------------------------------------------------- the deepest level

  // Each list but the last one holds nothing but a directory leading to the next list, and the last one
  // holds a file.
  function Chain(): Broker {
    map k: nat | 1 <= k <= 101 :: ChainList(k)
  }

  function ChainList(k: nat): Listing {
    Listing([if k <= 100 then Directory(Answer(k + 1)) else File], if k <= 1 || k > 101 then NoLink else Link(k - 1, 0))
  }

  lemma {:induction false} ChainWalk(s: Search, k: nat, d: nat)
    requires s == Search(Chain(), DepthFirst, Forward) && 1 <= k <= 101 && d <= MAX_DIRECTORY_DEPTH
    ensures s.First(s.Walk(k, 0, d, false)) ==
            if d + (101 - k) <= MAX_DIRECTORY_DEPTH then FoundAt(101, 0, d + (101 - k)) else Exhausted
    decreases 101 - k
  {
    hide Search.Walk, Search.First;
    assert |Items(s.b, k)| == 1 && !s.CanMove(k, 0);
    FromTop(s, k, 0, false);
    WalkFirst(s, k, 0, d, false);
    if k <= 100 && d < MAX_DIRECTORY_DEPTH {
      assert s.Enters(k, 0, d) && s.Child(k, 0) == k + 1;
      assert s.Verdict(Leave(k + 1, d + 1)).Exhausted?;
      ChainWalk(s, k + 1, d + 1);
    }
  }

  // At depth 0, one level more is searched than at depth 1: the file is found although it should be out of
  // reach.
  lemma DepthLimitDiffers()
    ensures var s := Search(Chain(), DepthFirst, Forward);
            && Consistent(s.b)
            && s.First(s.From(1, 0, 0, false)) == FoundAt(101, 0, 100)
            && s.First(s.From(1, 0, 1, false)) == Exhausted
  {
    var s := Search(Chain(), DepthFirst, Forward);
    hide Search.Walk, Search.First;
    ChainWalk(s, 1, 1);
    ChainWalk(s, 2, 1);
    assert s.Enters(1, 0, 0) && s.Child(1, 0) == 2 && s.Verdict(See(1, 0, 0)).Exhausted?;
    FromTop(s, 1, 0, false);
    s.FirstCons(See(1, 0, 0), s.Walk(2, 0, 1, false));
  }
}
