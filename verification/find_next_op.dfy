// Playlist::Crawler::DirectoryCrawler::FindNextOp, the event-driven search for the next file
// (src/directory_crawler_find_next_op.cc), together with the parts of the crawler's cursor
// and of the list object it works on.
module FindNext {
  import opened UInt
  import opened ListNav
  import opened CrawlTree
  import opened Wrappers
  import CrawlOrder

  datatype CallerId = FirstEntry | ResetPosition | Descend | Ascend

  datatype EnterQuery = EnterQuery(list: ListId, line: uint32, cid: CallerId)

  datatype HintResult = HintSucceeded | HintStarted | HintFailed

  datatype FindMode = FindFirst | FindNextMode

  datatype PositionalState = Unknown | SomewhereInList | ReachedStartOfList | ReachedEndOfList

  // AssertionFailed: a run-time assertion has failed, which ends the program
  datatype OpState = Running | Done(success: bool) | AssertionFailed

  datatype Continue = NotWithError | NotWithSuccess | Later | WithThisItem

  // The crawler's List::DBusList and the list broker behind it
  class DBusList {
    const b: Broker
    var listId: ListId
    var query: Option<EnterQuery>
    // bound on how often the broker still answers late
    var lateAnswers: nat

    constructor (b: Broker, listId: ListId, lateAnswers: nat)
      ensures this.b == b && this.listId == listId && query == None && this.lateAnswers == lateAnswers
    {
      this.b := b;
      this.listId := listId;
      this.query := None;
      this.lateAnswers := lateAnswers;
    }

    method EnterListAsync(list: ListId, line: uint32, cid: CallerId)
      modifies this`query
      ensures query == Some(EnterQuery(list, line, cid))
    {
      query := Some(EnterQuery(list, line, cid));
    }

    // enter_list_async_handle_done()
    method EnterListAsyncHandleDone() returns (ok: bool, q: EnterQuery)
      requires query.Some?
      modifies this`query, this`listId
      ensures query == None && q == old(query).value
      ensures ok <==> q.list in b
      ensures listId == if ok then q.list else old(listId)
    {
      q := query.value;
      query := None;
      ok := q.list in b;
      if ok {
        listId := q.list;
      }
    }

    // Load the item in the given line, in the background at the broker's discretion.
    method HintPlannedAccess(line: uint32) returns (r: HintResult)
      modifies this`lateAnswers
      ensures r.HintStarted? ==> lateAnswers < old(lateAnswers)
      ensures !r.HintStarted? ==> lateAnswers == old(lateAnswers)
      ensures r.HintFailed? ==> line >= |Items(b, listId)| || Items(b, listId)[line].Unreadable?
      ensures r.HintSucceeded? ==> line < |Items(b, listId)| && !Items(b, listId)[line].Unreadable?
      ensures r.HintStarted? ==> line < |Items(b, listId)|
    {
      if line >= |Items(b, listId)| {
        return HintFailed;
      }
      var late: bool := *;
      if late && lateAnswers > 0 {
        lateAnswers := lateAnswers - 1;
        return HintStarted;
      }
      return if Items(b, listId)[line].Unreadable? then HintFailed else HintSucceeded;
    }
  }

  class Cursor {
    var listId: ListId
    const nav: Nav
    var directoryDepth: nat
    var requestedListId: ListId
    var requestedLine: uint32

    constructor (visibleItems: uint32, list: ListId, line: uint32, depth: nat)
      ensures fresh(nav) && nav.wrapMode == NoWrap && nav.visibleItems == visibleItems
      ensures nav.cursor == if line < visibleItems then line else 0
      ensures listId == requestedListId == list && requestedLine == line && directoryDepth == depth
    {
      nav := new Nav(NoWrap, visibleItems, line);
      listId := list;
      requestedListId := list;
      requestedLine := line;
      directoryDepth := depth;
    }

    method Advance(direction: Direction) returns (moved: bool)
      requires nav.wrapMode == NoWrap && nav.visibleItems <= INT_MAX + 1
      requires nav.cursor < nav.visibleItems || nav.cursor == 0
      modifies nav`cursor
      ensures moved <==> match direction
                         case Forward => old(nav.cursor) + 1 < nav.visibleItems
                         case Backward => old(nav.cursor) > 0
                         case NoDirection => false
      ensures nav.cursor == if !moved then old(nav.cursor)
                            else if direction.Forward? then old(nav.cursor) + 1
                            else old(nav.cursor) - 1
    {
      match direction
      case Forward => moved := nav.Down(1);
      case Backward => moved := nav.Up(1);
      case NoDirection => moved := false;
    }

    method SyncListIdWithRequest(depth: nat)
      modifies this`listId, this`directoryDepth
      ensures listId == requestedListId && directoryDepth == depth
    {
      listId := requestedListId;
      directoryDepth := depth;
    }
  }

  class FindNextOp {
    const list: DBusList
    const position: Cursor
    const recursiveMode: RecursiveMode
    const direction: Direction
    const findMode: FindMode
    var directoryDepth: nat
    var callerId: CallerId
    var isWaitingForItemHint: bool
    var hasSkippedFirst: bool
    var posState: PositionalState
    var state: OpState
    // where counting of the depth has begun, if known
    ghost var root: Option<ListId>

    constructor (list: DBusList, recursiveMode: RecursiveMode, direction: Direction,
                 position: Cursor, findMode: FindMode, ghost root: Option<ListId>)
      ensures this.root == root
      ensures this.list == list && this.position == position && this.findMode == findMode
      ensures this.recursiveMode == recursiveMode && this.direction == direction
      ensures directoryDepth == position.directoryDepth && !isWaitingForItemHint && !hasSkippedFirst
      ensures callerId == if direction.NoDirection? then ResetPosition else FirstEntry
      ensures posState == Unknown && state == Running
    {
      this.list := list;
      this.recursiveMode := recursiveMode;
      this.direction := direction;
      this.position := position;
      this.findMode := findMode;
      this.directoryDepth := position.directoryDepth;
      this.callerId := if direction.NoDirection? then ResetPosition else FirstEntry;
      this.isWaitingForItemHint := false;
      this.hasSkippedFirst := false;
      this.posState := Unknown;
      this.state := Running;
      this.root := root;
    }

    // ---------------------------------------------------------------- specification

    ghost function Sch(): Search {
      Search(list.b, recursiveMode, direction)
    }

    ghost function N(): nat
      reads list
    {
      |Items(list.b, list.listId)|
    }

    // The operation has entered a list and knows where it is.
    ghost predicate Located()
      reads this, list, position, position.nav
    {
      && position.listId == list.listId
      && position.directoryDepth == directoryDepth
      && position.nav.visibleItems == N()
      && (position.nav.cursor < N() || position.nav.cursor == 0)
      && (hasSkippedFirst ==> position.nav.cursor < N())
      && list.listId in list.b
      && InTree()
    }

    // The depth is the depth of the current list below the root: one gets from there to the current list
    // by entering as many directories.  It is at least 1, and at most the maximum.
    ghost predicate InTree()
      reads this, list
    {
      root.Some? && Consistent(list.b) ==>
        CrawlOrder.Reachable(Sch(), root.value, list.listId, directoryDepth)
        && 1 <= directoryDepth <= MAX_DIRECTORY_DEPTH
    }

    // An enter-list request has been made by this operation.
    ghost predicate Requested()
      reads this, list, position
    {
      && list.query.Some?
      && list.query.value == EnterQuery(position.requestedListId, position.requestedLine, callerId)
      && !isWaitingForItemHint
    }

    ghost predicate Base() {
      WellFormed(list.b) && position.nav.wrapMode == NoWrap
    }

    // Positioned on an item to be looked at next, or on the directory just left
    ghost predicate Ready()
      reads this, list, position, position.nav
    {
      && Base() && Located() && state.Running? && list.query.None?
      && (JustAscended() ==> position.nav.cursor < N() && !isWaitingForItemHint)
    }

    ghost predicate JustAscended()
      reads this
    {
      callerId.Ascend? && !hasSkippedFirst && !direction.NoDirection?
    }

    // Waiting for the broker to let us into a list
    ghost predicate Entering()
      reads this, list, position, position.nav
    {
      && Base() && state.Running? && Requested()
      && (callerId.Descend? ==> Descending())
      && (callerId.Ascend? ==> Ascending())
      && (callerId.FirstEntry? || callerId.ResetPosition? ==> FirstEntering())
    }

    ghost predicate Descending()
      reads this, list, position, position.nav
    {
      && Located() && !direction.NoDirection?
      && position.nav.cursor < N() && position.requestedLine == 0
      && IsUnderCursor(position.requestedListId)
      && !Sch().SkipsDirectories(directoryDepth)
    }

    ghost predicate Ascending()
      reads this, list, position, position.nav
    {
      && Located() && directoryDepth >= 2 && !direction.NoDirection?
      && list.b[list.listId].parent == Link(position.requestedListId, position.requestedLine)
      && position.requestedListId > 0
    }

    ghost predicate FirstEntering()
      reads this
    {
      !hasSkippedFirst && callerId == if direction.NoDirection? then ResetPosition else FirstEntry
    }

    ghost predicate IsUnderCursor(c: ListId)
      reads list, position, position.nav
    {
      && c > 0
      && position.nav.cursor < N()
      && Items(list.b, list.listId)[position.nav.cursor] == Directory(Answer(c))
    }

    // Where the operation must end when it looks at the item in line `i` next
    ghost function Goal(l: ListId, i: nat, d: nat, hs: bool): Outcome {
      if direction.NoDirection? && i >= |Items(list.b, l)| then Fault
      else Sch().First(Sch().From(l, i, d, hs))
    }

    // The depth of the first list entered is 1, or as requested if there is no direction.
    ghost function EntryDepth(): nat
      reads this
    {
      if direction.NoDirection? then directoryDepth else 1
    }

    // Where the operation must end if it enters a list first.  With a direction to go to, there must
    // not be any depth yet.
    ghost function EntryGoal(l: ListId, line: nat): Outcome
      reads this
    {
      if !direction.NoDirection? && directoryDepth != 0 then AssertionFails
      else if l !in list.b then Fault
      else if |Items(list.b, l)| == 0 then Exhausted
      else Goal(l, Sch().StartLine(l, line), EntryDepth(), false)
    }

    // Where the operation must end, given the state it is in
    ghost function Expected(): Outcome
      reads this, list, position, position.nav
    {
      var l, i, d := list.listId, position.nav.cursor, directoryDepth;
      if list.query.None? then
        if JustAscended() then Sch().First(Sch().After(l, i, d, true))
        else Goal(l, i, d, hasSkippedFirst)
      else
        var c, line := list.query.value.list, list.query.value.line;
        match list.query.value.cid
        case Descend =>
          if c in list.b then Sch().First(Sch().From(c, Sch().Entry(c), d + 1, false))
          else Sch().First(Sch().After(l, i, d, hasSkippedFirst))
        case Ascend =>
          if Items(list.b, c) == [] || d == 0 then Fault
          else Sch().First(Sch().After(c, ClipLine(line, |Items(list.b, c)|), d - 1, true))
        case FirstEntry => EntryGoal(c, line)
        case ResetPosition => EntryGoal(c, line)
    }

    // The operation doesn't wait for being let into its first list.
    ghost predicate HasEntered()
      reads this, list
    {
      state.Running? && list.query.Some? ==> list.query.value.cid.Descend? || list.query.value.cid.Ascend?
    }

    // The root as soon as the operation has entered a list
    ghost function ExpectedRoot(): Option<ListId>
      reads this, list
    {
      if HasEntered() then root
      else if EntryGoal(list.query.value.list, list.query.value.line).AssertionFails? then root
      else if list.query.value.list !in list.b then root
      else EntryRoot(list.query.value.list)
    }

    ghost function EntryRoot(l: ListId): Option<ListId>
      reads this
    {
      if EntryDepth() == 1 then Some(l) else None
    }

    // Bound on the number of steps until the operation ends
    ghost function Work(): nat
      reads this, list, position, position.nav
    {
      var l, i, d := list.listId, position.nav.cursor, directoryDepth;
      if list.query.None? then
        if JustAscended() then 2 * |Sch().After(l, i, d, true)| + 1
        else 2 * |Sch().From(l, i, d, hasSkippedFirst)| + if isWaitingForItemHint then 1 else 0
      else
        var c, line := list.query.value.list, list.query.value.line;
        match list.query.value.cid
        case Descend =>
          1 + if c in list.b then 2 * |Sch().From(c, Sch().Entry(c), d + 1, false)|
              else 2 * |Sch().After(l, i, d, hasSkippedFirst)|
        case Ascend =>
          2 + if d == 0 || c !in list.b then 0
              else 2 * |Sch().After(c, ClipLine(line, |Items(list.b, c)|), d - 1, true)|
        case FirstEntry => 1 + 2 * |Sch().From(c, Sch().StartLine(c, line), EntryDepth(), false)|
        case ResetPosition => 1 + 2 * |Sch().From(c, Sch().StartLine(c, line), EntryDepth(), false)|
    }

    // The operation waits for an answer from the broker.
    ghost predicate Waits(goal: Outcome)
      reads this, list, position, position.nav
    {
      (Entering() || (Ready() && isWaitingForItemHint)) && Expected() == goal
    }

    // Whenever the operation waits for the broker, having entered a list, its depth is the depth of that
    // list, and the only one if the root is a root indeed; going back up is begun in nested lists only.
    lemma DepthIsTreeDepth(goal: Outcome, d: nat)
      requires Waits(goal) && HasEntered() && root.Some? && Consistent(list.b)
      ensures CrawlOrder.Reachable(Sch(), root.value, list.listId, directoryDepth)
      ensures 1 <= directoryDepth <= MAX_DIRECTORY_DEPTH && position.directoryDepth == directoryDepth
      ensures !Ascends(list.b, root.value) && CrawlOrder.Reachable(Sch(), root.value, list.listId, d) ==>
                d == directoryDepth
      ensures list.query.Some? && list.query.value.cid.Ascend? ==> directoryDepth >= 2
    {
      hide CrawlOrder.Reachable;
      if !Ascends(list.b, root.value) && CrawlOrder.Reachable(Sch(), root.value, list.listId, d) {
        CrawlOrder.DepthIsUnique(Sch(), root.value, list.listId, directoryDepth, d);
      }
    }

    // What continue_search() and finish_with_current_item_or_continue() have achieved
    ghost predicate Achieved(r: Continue, goal: Outcome)
      reads this, list, position, position.nav
    {
      && state.Running?
      && (r.WithThisItem? ==> Ready() && !JustAscended() && !isWaitingForItemHint && Expected() == goal)
      && (r.Later? ==> Waits(goal))
      && (r.NotWithError? ==> goal == Fault)
      && (r.NotWithSuccess? ==> Found(goal))
    }

    // The position and the result are those of outcome `o`.
    ghost predicate Found(o: Outcome)
      reads this, list, position, position.nav
    {
      match o
      case FoundAt(l, i, d) =>
        && posState == SomewhereInList
        && Base() && Located() && list.query.None? && position.nav.cursor < N()
        && list.listId == position.listId == l && position.nav.cursor == i
        && directoryDepth == position.directoryDepth == d
      case Exhausted => posState == if direction.Backward? then ReachedStartOfList else ReachedEndOfList
      case Fault => false
      case AssertionFails => false
    }

    ghost predicate Reports(o: Outcome)
      reads this, list, position, position.nav
    {
      && state == (if o.AssertionFails? then AssertionFailed else Done(!o.Fault?))
      && (o.FoundAt? || o.Exhausted? ==> Found(o))
    }

    // ---------------------------------------------------------------- operation

    method FinishOpIfPossible(cont: Continue) returns (finished: bool)
      modifies this`state
      ensures finished <==> !cont.WithThisItem?
      ensures state == match cont
                       case NotWithError => Done(false)
                       case NotWithSuccess => Done(true)
                       case _ => old(state)
    {
      match cont
      case NotWithError => state := Done(false); finished := true;
      case NotWithSuccess => state := Done(true); finished := true;
      case Later => finished := true;
      case WithThisItem => finished := false;
    }

    // Move away from the current item.  `hs` stands for any value has_skipped_first_ may take.
    method ContinueSearch(ghost hs: bool) returns (r: Continue)
      requires Base() && Located() && state.Running? && list.query.None? && !isWaitingForItemHint
      requires direction.NoDirection? ==> position.nav.cursor < N()
      modifies this, list, position, position.nav
      ensures root == old(root) && HasEntered()
      ensures list.listId == old(list.listId) && directoryDepth == old(directoryDepth)
      ensures hasSkippedFirst == old(hasSkippedFirst) && list.lateAnswers == old(list.lateAnswers)
      ensures r.WithThisItem? || r.Later? || r.NotWithError? || r.NotWithSuccess?
      ensures Base() && Located() && state.Running? && (!r.Later? ==> list.query.None?)
      ensures r.WithThisItem? <==> old(Sch().CanMove(list.listId, position.nav.cursor))
      ensures !direction.NoDirection? ==>
                var steps := old(Sch().After(list.listId, position.nav.cursor, directoryDepth, hs));
                var goal := Sch().First(steps);
                match r
                case WithThisItem =>
                  && list.query.None? && callerId == old(callerId) && !isWaitingForItemHint
                  && position.nav.cursor < N()
                  && Sch().From(list.listId, position.nav.cursor, directoryDepth, hs) == steps
                case Later => Entering() && callerId.Ascend? && Expected() == goal && Work() <= 2 * |steps|
                case NotWithError => goal == Fault
                case NotWithSuccess =>
                  goal == Exhausted && posState == if direction.Backward? then ReachedStartOfList else ReachedEndOfList
      ensures direction.NoDirection? ==>
                r.NotWithSuccess? && posState == SomewhereInList && position.nav.cursor == old(position.nav.cursor)
    {
      hide Search.Walk, Search.Stray, Search.Verdict;
      ghost var l, i, d := list.listId, position.nav.cursor, directoryDepth;
      var moved := position.Advance(direction);
      if moved {
        return WithThisItem;
      }
      if direction.NoDirection? {
        posState := SomewhereInList;
        return NotWithSuccess;
      }
      assert !Sch().CanMove(l, i);
      if directoryDepth <= 1 {
        posState := if !direction.Backward? then ReachedEndOfList else ReachedStartOfList;
        return NotWithSuccess;
      }
      r := AscendToParent(hs);
    }

    // Go back to the parent at the end of a nested list.
    method AscendToParent(ghost hs: bool) returns (r: Continue)
      requires Base() && Located() && state.Running? && list.query.None? && !isWaitingForItemHint
      requires directoryDepth >= 2 && !direction.NoDirection?
      requires !Sch().CanMove(list.listId, position.nav.cursor)
      modifies this`callerId, list`query, position`requestedListId, position`requestedLine
      ensures r.Later? || r.NotWithError?
      ensures var steps := old(Sch().After(list.listId, position.nav.cursor, directoryDepth, hs));
              var goal := Sch().First(steps);
              && (r.Later? ==> Entering() && callerId.Ascend? && Expected() == goal && Work() <= 2 * |steps|)
              && (r.NotWithError? ==> goal == Fault && list.query.None?)
    {
      hide Search.Walk, Search.Up, Search.Stray, Search.First, Search.From, Search.After;
      Sch().LeaveStep(list.listId, position.nav.cursor, directoryDepth, hs);
      // get_parent_link_id()
      var parent := list.b[list.listId].parent;
      if !(parent.Link? && parent.list > 0) {
        return NotWithError;
      }
      callerId := Ascend;
      position.requestedListId := parent.list;
      position.requestedLine := parent.line;
      list.EnterListAsync(parent.list, parent.line, Ascend);
      return Later;
    }

    // The item under the cursor has been stepped over on purpose.
    method StepOver(ghost goal: Outcome) returns (r: Continue)
      requires Ready() && !isWaitingForItemHint && !direction.NoDirection?
      requires goal == Expected()
      requires JustAscended() || Sch().Blind(position.nav.cursor, hasSkippedFirst) || N() == 0
      modifies this, list, position, position.nav
      ensures root == old(root) && HasEntered()
      ensures Achieved(r, goal) && list.lateAnswers == old(list.lateAnswers)
      ensures r.WithThisItem? ==> Work() < old(Work())
      ensures r.Later? ==> Work() <= old(Work()) && list.query.Some?
    {
      hide Search.Walk, Search.Up, Search.Stray, Search.First, Search.From, Search.After;
      var hs := hasSkippedFirst || callerId.Ascend?;
      ghost var l, i, d := list.listId, position.nav.cursor, directoryDepth;
      if !JustAscended() {
        Sch().NothingToSee(l, i, d, hasSkippedFirst, hs);
      }
      if callerId.Ascend? {
        hasSkippedFirst := true;
      }
      r := ContinueSearch(hs);
    }

    // Move on from an item at which the search does not stop.
    method SkipDirectory(ghost goal: Outcome) returns (r: Continue)
      requires Ready() && !JustAscended() && !isWaitingForItemHint && !direction.NoDirection?
      requires position.nav.cursor < N() && !Sch().Blind(position.nav.cursor, hasSkippedFirst)
      requires Sch().Verdict(See(list.listId, position.nav.cursor, directoryDepth)) == Exhausted
      requires !Sch().Enters(list.listId, position.nav.cursor, directoryDepth)
      requires goal == Expected()
      modifies this, list, position, position.nav
      ensures root == old(root) && HasEntered()
      ensures Achieved(r, goal) && list.lateAnswers == old(list.lateAnswers)
      ensures r.WithThisItem? || r.Later? ==> Work() < old(Work())
      ensures r.Later? ==> list.query.Some?
    {
      hide Search.Walk, Search.Up, Search.Stray, Search.First, Search.From, Search.After;
      Sch().LookStep(list.listId, position.nav.cursor, directoryDepth, hasSkippedFirst);
      r := ContinueSearch(hasSkippedFirst);
    }

    // Ask to be let into list `id` behind the directory under the cursor.
    method EnterDirectory(id: ListId, ghost goal: Outcome)
      requires Ready() && !JustAscended() && !isWaitingForItemHint && !direction.NoDirection?
      requires position.nav.cursor < N() && !Sch().Blind(position.nav.cursor, hasSkippedFirst)
      requires !Sch().SkipsDirectories(directoryDepth) && IsUnderCursor(id)
      requires goal == Expected()
      modifies this`callerId, list`query, position`requestedListId, position`requestedLine
      ensures Entering() && callerId.Descend? && Expected() == goal
      ensures Work() < old(Work())
    {
      hide Search.Walk, Search.Up, Search.Stray, Search.First, Search.From, Search.After;
      Sch().LookStep(list.listId, position.nav.cursor, directoryDepth, hasSkippedFirst);
      callerId := Descend;
      position.requestedListId := id;
      position.requestedLine := 0;
      list.EnterListAsync(id, 0, Descend);
    }

    // Enter the directory under the cursor if possible, skip it otherwise.
    method EnterOrSkipDirectory(ghost goal: Outcome) returns (r: Continue)
      requires Ready() && !JustAscended() && !isWaitingForItemHint && !direction.NoDirection?
      requires position.nav.cursor < N() && Items(list.b, list.listId)[position.nav.cursor].Directory?
      requires !Sch().Blind(position.nav.cursor, hasSkippedFirst)
      requires goal == Expected()
      modifies this, list, position, position.nav
      ensures root == old(root) && HasEntered()
      ensures Achieved(r, goal) && list.lateAnswers == old(list.lateAnswers)
      ensures r.WithThisItem? || r.Later? ==> Work() < old(Work())
      ensures r.Later? ==> list.query.Some?
    {
      hide Search.Walk, Search.Up, Search.Stray, Search.First, Search.From, Search.After;
      // check_skip_directory()
      if recursiveMode.Flat? || directoryDepth >= MAX_DIRECTORY_DEPTH {
        r := SkipDirectory(goal);
        return;
      }
      // get_child_id_for_enter()
      var lookup := Items(list.b, list.listId)[position.nav.cursor].lookup;
      var isHardError := lookup.Throws? && IsHardError(lookup.error);
      if lookup.Throws? || lookup.id == 0 {
        if isHardError {
          Sch().LookStep(list.listId, position.nav.cursor, directoryDepth, hasSkippedFirst);
          return NotWithError;
        }
        r := SkipDirectory(goal);
        return;
      }
      EnterDirectory(lookup.id, goal);
      return Later;
    }

    // Fetch the item under the cursor, and decide what to do with it.
    method LookAtItem(ghost goal: Outcome) returns (r: Continue)
      requires Ready() && !JustAscended() && !isWaitingForItemHint
      requires direction.NoDirection? || position.nav.cursor < N()
      requires !Sch().Blind(position.nav.cursor, hasSkippedFirst)
      requires goal == Expected()
      modifies this, list, position, position.nav
      ensures root == old(root) && HasEntered()
      ensures Achieved(r, goal) && list.lateAnswers <= old(list.lateAnswers)
      ensures r.WithThisItem? ==> Work() < old(Work())
      ensures r.Later? && list.query.Some? ==> Work() <= old(Work())
      ensures r.Later? && list.query.None? ==> Work() <= old(Work()) + 1 && list.lateAnswers < old(list.lateAnswers)
    {
      hide Search.Walk, Search.Up, Search.Stray, Search.First, Search.From, Search.After;
      if position.nav.cursor < N() {
        Sch().LookStep(list.listId, position.nav.cursor, directoryDepth, hasSkippedFirst);
      }
      var hint := list.HintPlannedAccess(position.nav.cursor);
      if hint.HintStarted? {
        isWaitingForItemHint := true;
        return Later;
      }
      if hint.HintFailed? {
        return NotWithError;
      }
      var item := Items(list.b, list.listId)[position.nav.cursor];
      if item.File? {
        posState := SomewhereInList;
        return NotWithSuccess;
      }
      if direction.NoDirection? {
        return NotWithError;
      }
      r := EnterOrSkipDirectory(goal);
    }

    method FinishWithCurrentItemOrContinue(ghost goal: Outcome) returns (r: Continue)
      requires Ready()
      requires goal == Expected()
      modifies this, list, position, position.nav
      ensures root == old(root) && HasEntered()
      ensures Achieved(r, goal) && list.lateAnswers <= old(list.lateAnswers)
      ensures r.WithThisItem? ==> Work() < old(Work())
      ensures r.Later? && list.query.Some? ==> Work() <= old(Work())
      ensures r.Later? && list.query.None? && !old(isWaitingForItemHint) ==>
                Work() <= old(Work()) + 1 && list.lateAnswers < old(list.lateAnswers)
    {
      hide Search.Walk, Search.Up, Search.Stray, Search.First, Search.From, Search.After;
      if isWaitingForItemHint {
        return Later;
      }
      var c := position.nav.GetCursor();
      if !hasSkippedFirst &&
         ((direction.Forward? && c >= position.nav.visibleItems) || (direction.Backward? && c == 0) ||
          (callerId.Ascend? && !direction.NoDirection?)) {
        r := StepOver(goal);
        return;
      }
      r := LookAtItem(goal);
    }

    method RunAsFarAsPossible(ghost goal: Outcome)
      requires Ready() && !isWaitingForItemHint
      requires goal == Expected()
      modifies this, list, position, position.nav
      ensures root == old(root) && HasEntered()
      ensures Settled(goal)
      ensures state.Running? ==> Progress(old(Work()), old(list.lateAnswers))
    {
      hide Search.Walk, Search.Up, Search.Stray, Search.First, Search.From, Search.After;
      while true
        invariant Ready() && !isWaitingForItemHint && Expected() == goal && root == old(root) && HasEntered()
        invariant list.lateAnswers <= old(list.lateAnswers) && Work() <= old(Work())
        decreases Work()
      {
        var cont := FinishWithCurrentItemOrContinue(goal);
        var finished := FinishOpIfPossible(cont);
        if finished {
          return;
        }
      }
    }

    // At most `work` is left if the operation waits for being let into a list.  It has used up
    // some of the late answers if it waits for an item.
    ghost predicate Progress(work: nat, lateAnswers: nat)
      reads this, list, position, position.nav
    {
      if list.query.Some? then Work() <= work else Work() <= work + 1 && list.lateAnswers < lateAnswers
    }

    // Either the operation has ended as it must, or it waits for an answer from the broker.
    ghost predicate Settled(goal: Outcome)
      reads this, list, position, position.nav
    {
      if state.Running? then Waits(goal) else Reports(goal)
    }

    ghost predicate Decreased(work: nat, lateAnswers: nat)
      reads this, list, position, position.nav
    {
      Work() < work || (Work() == work && list.lateAnswers < lateAnswers)
    }

    // The broker has delivered the item we were waiting for.
    method HintedItemAvailable(ghost goal: Outcome)
      requires Ready() && isWaitingForItemHint
      requires goal == Expected()
      modifies this, list, position, position.nav
      ensures root == old(root) && HasEntered()
      ensures Settled(goal)
      ensures state.Running? ==> Decreased(old(Work()), old(list.lateAnswers))
    {
      isWaitingForItemHint := false;
      RunAsFarAsPossible(goal);
    }

    method UpdateNavigation(forward: bool, requestedLine: uint32)
      requires N() <= INT_MAX + 1
      modifies position.nav
      ensures position.nav.visibleItems == N()
      ensures position.nav.cursor == if N() == 0 then 0
                                     else if requestedLine >= N() then (if forward then N() - 1 else 0)
                                     else if forward then requestedLine
                                     else N() - 1 - requestedLine
    {
      position.nav.ListContentChanged(|Items(list.b, list.listId)|);
      var lines := position.nav.visibleItems;
      var line := requestedLine;
      if lines == 0 {
        line := 0;
      } else if line >= lines {
        line := if forward then lines - 1 else 0;
      } else if !forward {
        line := lines - 1 - line;
      }
      position.nav.SetCursorByLineNumber(line);
    }

    // Take the broker's answer to an enter-list request and place the cursor.
    method ReceiveAnswer() returns (hasSucceeded: bool)
      requires Base() && Requested()
      modifies list`query, list`listId, position.nav
      ensures list.query == None
      ensures hasSucceeded <==> position.requestedListId in list.b
      ensures list.listId == if hasSucceeded then position.requestedListId else old(list.listId)
      ensures !hasSucceeded ==> position.nav.cursor == old(position.nav.cursor)
                                && position.nav.visibleItems == old(position.nav.visibleItems)
      ensures hasSucceeded ==> position.nav.visibleItems == N()
      ensures hasSucceeded && callerId.Ascend? && N() > 0 ==>
                position.nav.cursor == ClipLine(position.requestedLine, N())
      ensures hasSucceeded && !callerId.Ascend? ==>
                position.nav.cursor == Sch().StartLine(list.listId, position.requestedLine)
      ensures hasSucceeded && N() == 0 ==> position.nav.cursor == 0
    {
      var q;
      hasSucceeded, q := list.EnterListAsyncHandleDone();
      if hasSucceeded {
        UpdateNavigation(q.cid.Ascend? || !direction.Backward?, position.requestedLine);
      }
    }

    // Entering the directory under the cursor did not work out.
    method DescendFailed(ghost goal: Outcome)
      requires Ready() && callerId.Descend? && !isWaitingForItemHint && !direction.NoDirection?
      requires goal == Sch().First(Sch().After(list.listId, position.nav.cursor, directoryDepth, hasSkippedFirst))
      modifies this, list, position, position.nav
      ensures root == old(root) && HasEntered()
      ensures Settled(goal)
      ensures state.Running? ==>
                Progress(old(2 * |Sch().After(list.listId, position.nav.cursor, directoryDepth, hasSkippedFirst)|),
                         old(list.lateAnswers))
    {
      hide Search.Walk, Search.Up, Search.Stray, Search.First, Search.From, Search.After;
      var cont := ContinueSearch(hasSkippedFirst);
      var finished := FinishOpIfPossible(cont);
      if finished {
        return;
      }
      RunAsFarAsPossible(goal);
    }

    method DescendEvent(ghost goal: Outcome)
      requires Entering() && callerId.Descend?
      requires goal == Expected()
      modifies this, list, position, position.nav
      ensures root == old(root) && HasEntered()
      ensures Settled(goal)
      ensures state.Running? ==> Decreased(old(Work()), old(list.lateAnswers))
    {
      hide Search.Walk, Search.Up, Search.Stray, Search.First, Search.From, Search.After;
      ghost var l, i, d := list.listId, position.nav.cursor, directoryDepth;
      var hasSucceeded := ReceiveAnswer();
      if !hasSucceeded {
        DescendFailed(goal);
        return;
      }
      directoryDepth := directoryDepth + 1;
      hasSkippedFirst := false;
      position.SyncListIdWithRequest(directoryDepth);
      assert LeadsTo(list.b, l, i, list.listId);
      assert Located() && Ready();
      assert Expected() == goal;
      if position.nav.visibleItems == 0 {
        Sch().NothingToSee(list.listId, 0, directoryDepth, false, false);
        DescendFailed(goal);
        return;
      }
      RunAsFarAsPossible(goal);
    }

    method AscendEvent(ghost goal: Outcome)
      requires Entering() && callerId.Ascend?
      requires goal == Expected()
      modifies this, list, position, position.nav
      ensures root == old(root) && HasEntered()
      ensures Settled(goal)
      ensures state.Running? ==> Decreased(old(Work()), old(list.lateAnswers))
    {
      hide Search.Walk, Search.Up, Search.Stray, Search.First, Search.From, Search.After;
      var hasSucceeded := ReceiveAnswer();
      if !hasSucceeded {
        var _ := FinishOpIfPossible(NotWithError);
        return;
      }
      directoryDepth := directoryDepth - 1;
      hasSkippedFirst := false;
      position.SyncListIdWithRequest(directoryDepth);
      if position.nav.visibleItems == 0 {
        var _ := FinishOpIfPossible(NotWithError);
        return;
      }
      assert Located() && JustAscended();
      assert Expected() == goal;
      RunAsFarAsPossible(goal);
    }

    method FirstEntryEvent(ghost goal: Outcome)
      requires Entering() && (callerId.FirstEntry? || callerId.ResetPosition?)
      requires goal == Expected()
      modifies this, list, position, position.nav
      ensures Settled(goal)
      ensures state.Running? ==> Decreased(old(Work()), old(list.lateAnswers))
      ensures state.AssertionFailed? <==> !direction.NoDirection? && old(directoryDepth) != 0
      ensures ExpectedRoot() == old(ExpectedRoot())
    {
      hide Search.Walk, Search.Up, Search.Stray, Search.First, Search.From, Search.After;
      var hasSucceeded := ReceiveAnswer();
      if !(directoryDepth == 0 || callerId.ResetPosition?) {
        state := AssertionFailed;
        return;
      }
      if !hasSucceeded {
        state := Done(false);
        return;
      }
      if callerId.FirstEntry? {
        directoryDepth := 1;
      }
      root := if directoryDepth == 1 then Some(list.listId) else None;
      position.SyncListIdWithRequest(directoryDepth);
      if position.nav.visibleItems == 0 {
        posState := if !direction.Backward? then ReachedEndOfList else ReachedStartOfList;
        state := Done(true);
        return;
      }
      RunAsFarAsPossible(goal);
    }

    // The broker has answered an enter-list request.
    method EnterListEvent(ghost goal: Outcome)
      requires Entering()
      requires goal == Expected()
      modifies this, list, position, position.nav
      ensures ExpectedRoot() == old(ExpectedRoot())
      ensures Settled(goal)
      ensures state.Running? ==> Decreased(old(Work()), old(list.lateAnswers))
    {
      hide Search.Walk, Search.Up, Search.Stray, Search.First, Search.From, Search.After;
      match callerId
      case Descend => DescendEvent(goal);
      case Ascend => AscendEvent(goal);
      case FirstEntry => FirstEntryEvent(goal);
      case ResetPosition => FirstEntryEvent(goal);
    }

    // A fresh operation on a list entered before, with the position being in that list; the
    // same without such a list
    ghost predicate Fresh()
      reads this, list, position, position.nav
    {
      && Base() && state.Running? && list.query.None? && !isWaitingForItemHint && !hasSkippedFirst
      && directoryDepth == position.directoryDepth
      && callerId == if direction.NoDirection? then ResetPosition else FirstEntry
    }

    // do_start(), and do_continue() if there is nothing to wait for
    method Start(ghost goal: Outcome)
      requires Fresh()
      requires StartsLocated() ==> Located()
      requires findMode.FindNextMode? ==> N() > 0
      requires goal == StartGoal()
      modifies this, list, position, position.nav
      ensures ExpectedRoot() == old(
                if StartsLocated() || !(position.requestedListId in list.b) || StartGoal().AssertionFails? then root
                else EntryRoot(position.requestedListId))
      ensures Settled(goal)
    {
      if position.requestedListId == list.listId || findMode.FindNextMode? {
        DoContinue(goal);
        return;
      }
      list.EnterListAsync(position.requestedListId, position.requestedLine, callerId);
    }

    method DoContinue(ghost goal: Outcome)
      requires Fresh() && Located() && (findMode.FindNextMode? ==> N() > 0)
      requires goal == LocatedGoal()
      modifies this, list, position, position.nav
      ensures root == old(root) && HasEntered()
      ensures Settled(goal)
    {
      hide Search.Walk, Search.Up, Search.Stray, Search.First, Search.From, Search.After;
      match findMode
      case FindFirst => RunAsFarAsPossible(goal);
      case FindNextMode =>
        var cont := ContinueSearch(true);
        var finished := FinishOpIfPossible(cont);
        if !finished {
          hasSkippedFirst := true;
          RunAsFarAsPossible(goal);
        }
    }

    // There is no list to be entered first.
    ghost predicate StartsLocated()
      reads this, list, position
    {
      position.requestedListId == list.listId || findMode.FindNextMode?
    }

    ghost function LocatedGoal(): Outcome
      reads this, list, position, position.nav
    {
      var l, i, d := list.listId, position.nav.cursor, directoryDepth;
      if findMode.FindFirst? then Goal(l, i, d, false)
      else if direction.NoDirection? then FoundAt(l, i, d)
      else Sch().First(Sch().After(l, i, d, true))
    }

    ghost function StartGoal(): Outcome
      reads this, list, position, position.nav
    {
      if StartsLocated() then LocatedGoal()
      else EntryGoal(position.requestedListId, position.requestedLine)
    }

    // The event the operation waits for is delivered.
    method DeliverEvent(ghost goal: Outcome)
      requires Waits(goal)
      modifies this, list, position, position.nav
      ensures ExpectedRoot() == old(ExpectedRoot())
      ensures Settled(goal)
      ensures state.Running? ==> Decreased(old(Work()), old(list.lateAnswers))
    {
      hide Search.Walk, Search.Up, Search.Stray, Search.First, Search.From, Search.After;
      if list.query.Some? {
        EnterListEvent(goal);
      } else {
        HintedItemAvailable(goal);
      }
    }

    // The operation runs to its end.
    method RunToCompletion(ghost goal: Outcome)
      requires Settled(goal)
      modifies this, list, position, position.nav
      ensures ExpectedRoot() == old(ExpectedRoot())
      ensures Reports(goal)
    {
      while state.Running?
        invariant Settled(goal) && ExpectedRoot() == old(ExpectedRoot())
        decreases state.Running?, Work(), list.lateAnswers
      {
        DeliverEvent(goal);
      }
    }
  }
}
