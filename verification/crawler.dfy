// The operation put to use: single forward and backward searches on a consistent directory
// structure, and the chain of prefetching searches a player makes.
module Crawler {
  import opened ListNav
  import opened CrawlTree
  import opened CrawlOrder
  import opened CrawlBack
  import opened CrawlRun
  import opened CrawlFirst
  import CrawlLimits
  import opened FindNext
  import opened Wrappers

  // The cursor is on an item of the list entered last.
  ghost predicate InSync(list: DBusList, position: Cursor)
    reads list, position, position.nav
  {
    && Consistent(list.b) && list.query.None?
    && position.listId == list.listId && position.nav.wrapMode == NoWrap
    && position.nav.visibleItems == |Items(list.b, list.listId)|
    && position.nav.cursor < position.nav.visibleItems
  }

  ghost function Here(list: DBusList, position: Cursor): (p: Step)
    reads list, position, position.nav
    ensures p.See?
  {
    See(list.listId, position.nav.cursor, position.directoryDepth)
  }

  // One FIND_NEXT operation from beginning to end
  method FindNextFrom(list: DBusList, position: Cursor, mode: RecursiveMode, direction: Direction,
                      ghost root: ListId)
      returns (op: FindNextOp)
    requires InSync(list, position) && !direction.NoDirection?
    requires Reachable(Search(list.b, mode, direction), root, list.listId, position.directoryDepth)
    modifies list, position, position.nav
    ensures op.list == list && op.position == position && op.direction == direction
    ensures var s, p := Search(list.b, mode, direction), old(Here(list, position));
            op.Reports(s.First(s.After(p.list, p.line, p.depth, true)))
    ensures op.root == Some(root)
    ensures InSync(list, position) || !(op.state == Done(true) && op.posState == SomewhereInList)
  {
    ghost var s := Search(list.b, mode, direction);
    ghost var p := Here(list, position);
    ghost var goal := s.First(s.After(p.list, p.line, p.depth, true));
    ReachableDepth(s, root, p.list, p.depth);
    op := new FindNextOp(list, mode, direction, position, FindNextMode, Some(root));
    op.Start(goal);
    op.RunToCompletion(goal);
  }

  // A search forward finds the next file, unless there is nothing left to find or something in
  // between on which it fails.
  method FindNextFile(list: DBusList, position: Cursor, mode: RecursiveMode, ghost root: ListId)
      returns (op: FindNextOp)
    requires InSync(list, position)
    requires Reachable(Search(list.b, mode, Forward), root, list.listId, position.directoryDepth)
    modifies list, position, position.nav
    ensures op.list == list && op.position == position && op.state.Done?
    ensures var s, start := Search(list.b, mode, Forward), old(Here(list, position));
            if op.state == Done(false) then
              exists q :: IsNextStop(s, root, start, q) && FailsOn(s, q)
            else if op.posState == SomewhereInList then
              && InSync(list, position) && IsNextStop(s, root, start, Here(list, position))
              && Items(s.b, list.listId)[position.nav.cursor].File?
              && PassesBetween(s, root, start, Here(list, position))
            else op.posState == ReachedEndOfList && NoStopFollows(s, root, start)
  {
    ghost var s := Search(list.b, mode, Forward);
    ghost var start := Here(list, position);
    FindNextIsNextFile(s, root, list.listId, position.nav.cursor, position.directoryDepth);
    op := FindNextFrom(list, position, mode, Forward, root);
    if op.state == Done(true) && op.posState == SomewhereInList {
      NextStopPasses(s, root, start, Here(list, position));
    }
  }

  lemma LastVisiblePasses(s: Search, root: ListId, start: Step, q: Step)
    requires !s.direction.NoDirection? && start.See? && IsLastVisibleStop(s, root, start, q)
    ensures forall r :: ReachableItem(s, root, r) && Visible(s, start, r) && Before(Key(s.b, q), Key(s.b, r)) ==>
              Items(s.b, r.list)[r.line].Directory? && !FailsOn(s, r)
  {
    hide Key, Reachable, Visible;
    forall r | ReachableItem(s, root, r) && Visible(s, start, r) && Before(Key(s.b, q), Key(s.b, r))
      ensures Items(s.b, r.list)[r.line].Directory? && !FailsOn(s, r)
    {
      StopsIff(s, root, r);
      BeforeTrichotomy(Key(s.b, q), Key(s.b, r));
    }
  }

  // A search backward finds a file before the start, the last one which is not overlooked.
  method FindPreviousFile(list: DBusList, position: Cursor, mode: RecursiveMode, ghost root: ListId)
      returns (op: FindNextOp)
    requires InSync(list, position)
    requires Reachable(Search(list.b, mode, Backward), root, list.listId, position.directoryDepth)
    modifies list, position, position.nav
    ensures op.list == list && op.position == position && op.state.Done?
    ensures var s, start := Search(list.b, mode, Backward), old(Here(list, position));
            op.state == Done(true) && op.posState == SomewhereInList ==>
              && InSync(list, position) && IsLastVisibleStop(s, root, start, Here(list, position))
              && Items(s.b, list.listId)[position.nav.cursor].File?
              && Follows(Key(s.b, Here(list, position)), Key(s.b, start))
              && forall r :: ReachableItem(s, root, r) && Visible(s, start, r)
                             && Before(Key(s.b, Here(list, position)), Key(s.b, r)) ==>
                   Items(s.b, r.list)[r.line].Directory? && !FailsOn(s, r)
    ensures var s, start := Search(list.b, mode, Backward), old(Here(list, position));
            op.state == Done(true) && op.posState != SomewhereInList ==>
              op.posState == ReachedStartOfList && forall q :: Stops(s, root, q) ==> !Visible(s, start, q)
    ensures var s, start := Search(list.b, mode, Backward), old(Here(list, position));
            op.state == Done(false) ==>
              exists q :: IsLastVisibleStop(s, root, start, q) && FailsOn(s, q)
  {
    ghost var s := Search(list.b, mode, Backward);
    ghost var start := Here(list, position);
    FindNextBackward(s, root, list.listId, position.nav.cursor, position.directoryDepth);
    op := FindNextFrom(list, position, mode, Backward, root);
    if op.state == Done(true) && op.posState == SomewhereInList {
      LastVisiblePasses(s, root, start, Here(list, position));
    }
  }

  // The item a FIND_FIRST operation starts at in the list it enters
  ghost function Entry(s: Search, l: ListId, line: nat): (p: Step)
    ensures p.See?
  {
    See(l, s.StartLine(l, line), 1)
  }

  // One FIND_FIRST operation on a list to be entered.  The cursor must not have any depth.
  method FindFirstFrom(list: DBusList, position: Cursor, mode: RecursiveMode, direction: Direction)
      returns (op: FindNextOp)
    requires Consistent(list.b) && list.query.None? && position.nav.wrapMode == NoWrap
    requires position.requestedListId != list.listId && !direction.NoDirection?
    modifies list, position, position.nav
    ensures op.list == list && op.position == position && op.direction == direction
    ensures op.state.AssertionFailed? <==> old(position.directoryDepth) != 0
    ensures var s := Search(list.b, mode, direction);
            var l, line := old(position.requestedListId), old(position.requestedLine);
            old(position.directoryDepth) == 0 ==>
              if l !in s.b then op.state == Done(false)
              else if Items(s.b, l) == [] then
                op.state == Done(true)
                && op.posState == if direction.Backward? then ReachedStartOfList else ReachedEndOfList
              else op.root == Some(l) && op.Reports(s.First(s.From(l, s.StartLine(l, line), 1, false)))
  {
    ghost var s := Search(list.b, mode, direction);
    ghost var l, line := position.requestedListId, position.requestedLine;
    ghost var goal := if position.directoryDepth != 0 then AssertionFails
                      else if l !in s.b then Fault
                      else if |Items(s.b, l)| == 0 then Exhausted
                      else s.First(s.From(l, s.StartLine(l, line), 1, false));
    op := new FindNextOp(list, mode, direction, position, FindFirst, None);
    op.Start(goal);
    op.RunToCompletion(goal);
  }

  lemma FirstStopPasses(s: Search, root: ListId, start: Step, q: Step)
    requires !s.direction.NoDirection? && start.See? && IsFirstStopFrom(s, root, start, q)
    ensures forall r :: ReachableItem(s, root, r) && !Before(Key(s.b, r), Key(s.b, start))
                        && Before(Key(s.b, r), Key(s.b, q)) ==>
              Items(s.b, r.list)[r.line].Directory? && !FailsOn(s, r)
  {
    hide Key, Reachable;
    forall r | ReachableItem(s, root, r) && !Before(Key(s.b, r), Key(s.b, start)) && Before(Key(s.b, r), Key(s.b, q))
      ensures Items(s.b, r.list)[r.line].Directory? && !FailsOn(s, r)
    {
      StopsIff(s, root, r);
      BeforeTrichotomy(Key(s.b, q), Key(s.b, r));
    }
  }

  // A search for the first file forward finds it at the item it starts at, or behind it.
  method FindFirstFile(list: DBusList, position: Cursor, mode: RecursiveMode) returns (op: FindNextOp)
    requires Consistent(list.b) && list.query.None? && position.nav.wrapMode == NoWrap
    requires position.requestedListId != list.listId
    modifies list, position, position.nav
    ensures op.list == list && op.position == position
    ensures op.state.AssertionFailed? <==> old(position.directoryDepth) != 0
    ensures var s := Search(list.b, mode, Forward);
            var l, line := old(position.requestedListId), old(position.requestedLine);
            var start := Entry(s, l, line);
            old(position.directoryDepth) == 0 && Items(s.b, l) != [] ==>
              if op.state == Done(false) then
                exists q :: IsFirstStopFrom(s, l, start, q) && FailsOn(s, q)
              else if op.posState == SomewhereInList then
                && InSync(list, position) && IsFirstStopFrom(s, l, start, Here(list, position))
                && Items(s.b, list.listId)[position.nav.cursor].File?
                && forall r :: ReachableItem(s, l, r) && !Before(Key(s.b, r), Key(s.b, start))
                               && Before(Key(s.b, r), Key(s.b, Here(list, position))) ==>
                     Items(s.b, r.list)[r.line].Directory? && !FailsOn(s, r)
              else
                op.posState == ReachedEndOfList && forall r :: Stops(s, l, r) ==> Before(Key(s.b, r), Key(s.b, start))
  {
    ghost var s := Search(list.b, mode, Forward);
    ghost var l, line := position.requestedListId, position.requestedLine;
    if Items(s.b, l) != [] {
      FindFirstIsFirstFile(s, l, Entry(s, l, line), false);
    }
    op := FindFirstFrom(list, position, mode, Forward);
    if Items(s.b, l) != [] && op.state == Done(true) && op.posState == SomewhereInList {
      FirstStopPasses(s, l, Entry(s, l, line), Here(list, position));
    }
  }

  // One FIND_FIRST operation on the list entered last, whatever depth the position has got
  method FindFirstHere(list: DBusList, position: Cursor, mode: RecursiveMode, direction: Direction,
                       ghost root: Option<ListId>)
      returns (op: FindNextOp)
    requires InSync(list, position) && !direction.NoDirection? && position.requestedListId == list.listId
    requires root.Some? ==>
               Reachable(Search(list.b, mode, direction), root.value, list.listId, position.directoryDepth)
    modifies list, position, position.nav
    ensures var s, p := Search(list.b, mode, direction), old(Here(list, position));
            && op.Reports(s.First(s.From(p.list, p.line, p.depth, false)))
            && (direction.Forward? && root.Some? ==>
                  IsFirstFile(s, root.value, p, s.First(s.From(p.list, p.line, p.depth, false))))
  {
    ghost var s, p := Search(list.b, mode, direction), Here(list, position);
    if root.Some? {
      ReachableDepth(s, root.value, p.list, p.depth);
      if direction.Forward? {
        FindFirstIsFirstFile(s, root.value, p, false);
      }
    }
    ghost var goal := s.First(s.From(p.list, p.line, p.depth, false));
    op := new FindNextOp(list, mode, direction, position, FindFirst, root);
    op.Start(goal);
    op.RunToCompletion(goal);
  }

  // Without a direction, only the item under the cursor is looked at, and it must be a file.
  method LookAtCurrent(list: DBusList, position: Cursor, mode: RecursiveMode) returns (op: FindNextOp)
    requires WellFormed(list.b) && list.query.None? && list.listId in list.b
    requires position.listId == position.requestedListId == list.listId && position.nav.wrapMode == NoWrap
    requires position.nav.visibleItems == |Items(list.b, list.listId)|
    requires position.nav.cursor < position.nav.visibleItems || position.nav.cursor == 0
    modifies list, position, position.nav
    ensures var items, i := Items(list.b, old(list.listId)), old(position.nav.cursor);
            && op.state == Done(i < |items| && items[i].File?)
            && (op.state == Done(true) ==>
                  op.posState == SomewhereInList && list.listId == old(list.listId) && position.nav.cursor == i)
  {
    ghost var s, l := Search(list.b, mode, NoDirection), list.listId;
    ghost var i, d := position.nav.cursor, position.directoryDepth;
    op := new FindNextOp(list, mode, NoDirection, position, FindFirst, None);
    ghost var goal := op.Goal(l, i, d, false);
    if i < |Items(s.b, l)| {
      OneItem(s, l, i, d);
    }
    op.Start(goal);
    op.RunToCompletion(goal);
  }

  lemma OneItem(s: Search, l: ListId, i: nat, d: nat)
    requires s.direction.NoDirection? && i < |Items(s.b, l)|
    ensures s.First(s.From(l, i, d, false)) == if Items(s.b, l)[i].File? then FoundAt(l, i, d) else Fault
  {
    assert s.From(l, i, d, false) == [See(l, i, d)];
    s.FirstOne(See(l, i, d));
  }

  // At the end of a nested list, the search fails unless there is a parent list with anything in it.
  method FailsWithoutParent(list: DBusList, position: Cursor, mode: RecursiveMode, direction: Direction)
      returns (op: FindNextOp)
    requires WellFormed(list.b) && list.query.None? && list.listId in list.b && !direction.NoDirection?
    requires position.listId == list.listId && position.nav.wrapMode == NoWrap && position.directoryDepth >= 2
    requires position.nav.visibleItems == |Items(list.b, list.listId)|
    requires position.nav.cursor < position.nav.visibleItems
    requires direction.Forward? ==> position.nav.cursor + 1 == position.nav.visibleItems
    requires direction.Backward? ==> position.nav.cursor == 0
    requires match list.b[list.listId].parent
             case NoLink => true
             case Link(p, _) => p == 0 || p !in list.b || list.b[p].items == []
    modifies list, position, position.nav
    ensures op.state == Done(false)
  {
    ghost var s, l, i, d := Search(list.b, mode, direction), list.listId, position.nav.cursor, position.directoryDepth;
    ghost var goal := s.First(s.After(l, i, d, true));
    s.LeaveStep(l, i, d, true);
    op := new FindNextOp(list, mode, direction, position, FindNextMode, None);
    op.Start(goal);
    op.RunToCompletion(goal);
  }

  // Taking up a search where it has been left off in a nested list: the position has got a depth, and the
  // assertion on it fails.
  method ResumeInNestedList() returns (state: OpState)
    ensures state == AssertionFailed
  {
    var list := new DBusList(CrawlLimits.OneFileBelow(), 1, 0);
    var position := new Cursor(1, 2, 0, 2);
    CrawlLimits.OneFileBelowIsConsistent();
    var op := FindFirstFrom(list, position, DepthFirst, Forward);
    state := op.state;
  }

  // Prefetching once
  method Prefetch(list: DBusList, position: Cursor, ghost root: ListId) returns (more: bool)
    requires InSync(list, position)
    requires Reachable(Search(list.b, DepthFirst, Forward), root, list.listId, position.directoryDepth)
    modifies list, position, position.nav
    ensures var s, p, q := Search(list.b, DepthFirst, Forward), old(Here(list, position)), Here(list, position);
            var run := Run(s, root, p.list, p.line, p.depth);
            if more then
              && InSync(list, position) && Reachable(s, root, q.list, q.depth)
              && run == [q] + Run(s, root, q.list, q.line, q.depth)
            else run == []
  {
    ghost var s := Search(list.b, DepthFirst, Forward);
    ghost var p := Here(list, position);
    if s.First(s.After(p.list, p.line, p.depth, true)).FoundAt? {
      FoundIsLater(s, root, p.list, p.line, p.depth);
    }
    var op := FindNextFrom(list, position, DepthFirst, Forward, root);
    more := op.state == Done(true) && op.posState == SomewhereInList;
  }

  // Prefetching goes on from the file found last until there is nothing left to find, or until
  // a search fails.  All the files it could find are found, once each and in preorder.
  method PrefetchAll(list: DBusList, position: Cursor, ghost root: ListId) returns (found: seq<Step>)
    requires InSync(list, position)
    requires Reachable(Search(list.b, DepthFirst, Forward), root, list.listId, position.directoryDepth)
    modifies list, position, position.nav
    ensures var s, start := Search(list.b, DepthFirst, Forward), old(Here(list, position));
            FindsEachFileOnce(s, root, start, found)
  {
    ghost var s := Search(list.b, DepthFirst, Forward);
    ghost var start := Here(list, position);
    found := Repeat(list, position, root);
    RunFindsEachFileOnce(s, root, start.list, start.line, start.depth);
  }

  method Repeat(list: DBusList, position: Cursor, ghost root: ListId) returns (found: seq<Step>)
    requires InSync(list, position)
    requires Reachable(Search(list.b, DepthFirst, Forward), root, list.listId, position.directoryDepth)
    modifies list, position, position.nav
    ensures var s, start := Search(list.b, DepthFirst, Forward), old(Here(list, position));
            found == Run(s, root, start.list, start.line, start.depth)
    decreases |Run(Search(list.b, DepthFirst, Forward), root, list.listId, position.nav.cursor,
              position.directoryDepth)|
  {
    var more := Prefetch(list, position, root);
    if !more {
      return [];
    }
    var here := See(list.listId, position.nav.cursor, position.directoryDepth);
    var rest := Repeat(list, position, root);
    found := [here] + rest;
  }
}
