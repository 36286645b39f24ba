# DRCPD: crawling, searching, caching, queueing

A Dafny model of the parts of DRCPD, the display and remote control daemon, which keep state over many
steps and depend on that state being right: the directory crawler, the text search in sorted lists, the
cached view of a remote list, the mirror of the stream player's queue, the request/notify/fetch (RNF)
calls, and the queue of display updates. `dafny verify dfyconfig.toml` checks everything.

Code that changes things step by step is modelled by classes and methods with the fields, branches and
constants of the source. Each of these methods is proved against a specification written
independently of it, and what the source promises is proved about that specification for all inputs
and all runs.

| files | source | what it is about |
|---|---|---|
| `uint.dfy`, `wrappers.dfy`, `listnav.dfy` | `src/listnav.hh` | integer widths, optional values, moving a cursor with and without wrapping |
| `crawl_tree.dfy` | | directory structure behind the list broker; the walk as a plain recursion |
| `find_next_op.dfy`, `crawler.dfy` | `src/directory_crawler_find_next_op.cc`, `src/directory_crawler.hh` | the event-driven search |
| `crawl_order.dfy`, `crawl_run.dfy`, `crawl_first.dfy`, `crawl_back.dfy` | | what the walk means, forward and backward |
| `crawl_limits.dfy`, `crawl_depth.dfy` | | where the crawler falls short, and exactly when |
| `sorted_texts.dfy`, `search_algo.dfy` | `src/search_algo.cc` | the two-boundary binary search |
| `cache_segment.dfy`, `ram_list.dfy`, `viewport.dfy`, `dbus_list.dfy` | `src/cache_segment.hh`, `src/ramlist.cc`, `src/dbuslist_viewport.cc`, `src/dbuslist.cc` | the sliding window over a remote list |
| `queued_streams.dfy`, `player_data.dfy` | `src/player_data.cc`, `src/player_data.hh` | the mirror queue and the list reference counts |
| `rnf_call.dfy` | `src/rnfcall.hh`, `src/rnfcall.cc` | RNF calls in any interleaving |
| `dcp_queue.dfy` | `src/dcp_transaction_queue.cc`, `src/dcp_transaction.cc` | merging and sending of view updates |

## How the crawler is specified

The list broker is a finite map from list IDs to listings; a list which is not in the map cannot be
entered. `Search.Walk` and `Search.Up` describe what is looked at, and in which order, by plain
recursion; `FindNextOp` has no stack, only a list, a cursor, a depth and two flags. The refinement is
carried by two functions of the operation's state: `Expected`, the outcome the walk prescribes from
here on, which no step changes, and `Work`, the number of steps left, which together with the number
of late answers by the broker decreases with each event. What the walk itself means is said in terms
of places: a place is the sequence of line numbers on the way down, preorder is the lexicographic order
of places, and "follows" means later in preorder, and not below. Files found by the operation are
characterised in these terms only.

## Results worth knowing

These are properties of the code as it is. Where a statement about it does not hold, there is a lemma
with an input for which it fails, and another one saying when it holds.

- Searching backward, the item in line 0 of a list is stepped over unseen unless the crawler has been in
  some subdirectory of that list. A directory holding a single file is therefore searched in vain
  (`BackwardOverlooksFirstItem`). Exactly the visible items are looked at (`AfterIsWhatIsVisible`), the
  file right before the start is found if and only if it is visible (`FoundIffVisible`), and nothing is
  overlooked if there are no blind spots (`BackwardIsComplete`).
- `FLAT` is documented as "always stay in current directory" (`src/playlist_crawler_ops.hh:59`). A flat
  search leaves a nested directory nonetheless, forward or backward, exactly when nothing ahead of it in
  that directory is to be stopped at (`FlatSearchGoesUpIff`), and then it may end on a file somewhere else
  (`FlatEndsElsewhere`).
- An operation started at depth 0 on a list which has been entered before takes the end of the first
  directory it goes into for the end of everything (`DepthZeroMissesFile`). It ends as intended if and only
  if it does not get to any such directory, or it stops inside of the first one, or there is nothing to
  stop at behind that one either (`DepthZeroAgreesIfShallow`, for directories which are not nested too
  deeply). As its depths are off by one, it also gets one level further down than allowed
  (`DepthLimitDiffers`): a file found inside must not be on the deepest level, nor, when searching backward, in
  line 0 on the level above (`DepthZeroAgreesIff`, `DeeperFound`).
- Resuming a search in a nested list fails an assertion
  (`src/directory_crawler_find_next_op.cc:588`): a FIND_FIRST operation which is to enter a list first
  fails it if and only if it has a direction and its position has a depth other than 0
  (`FirstEntryEvent`, `FindFirstFrom`, `ResumeInNestedList`).
- In a list of two lines with wrapping to the bottom, `Nav::up` by more than one line reports a movement
  although the cursor is where it was (`Nav.Up`).
- A text which is a proper prefix of the query may run the binary search into the assertion at
  `src/search_algo.cc:82`. In a list of readable items it does if and only if, for some part of the query
  which has been matched, halving the distance to the first text with that part hits a text consisting of
  nothing else before it hits one below the boundary (`BinarySearchUtf8`, `HitsShortIff`). A list of a text
  and a prefix of it, searched for that text, is enough (`PrefixInFrontIsHit`); with other texts in
  between, the prefix may be missed (`PrefixMayBeMissed`). The search for the bottom-most boundary never
  fails that assertion.
- The cache is refilled correctly for views of the usual size. For views of other sizes, which
  `get_item_async_set_hint` accepts, the cached items may be followed by empty slots. Then all items in view are
  those in the list if and only if the upper part of the view has been cached, there are no empty slots, and
  the view is not larger than the vector, or the lower part has been cached, and the view is as large as the
  vector, or neither of them has been cached in part (`RefillAgreesIff`, and `RefillRun` for any number of
  refills). A single smaller view may lose a line (`SmallerViewLosesLine`); with two of them, the second
  one shows wrong items even though it is as large as the part cached (`SecondRefillLosesLine`).
- A viewport is registered without being cleared by the synchronous interface. If it comes with items of another
  list, then `get_item` is right for a line if and only if that line has not been cached, or both lists
  have got the same item there (`FirstUseIff`, `StaleItem`).
- Streams dropped or rejected by the player are accounted for twice in the reference counts of lists, once by
  the removal callback and once by the caller. Counts are never too high, and after a drop they are
  still exact if and only if, for each list, all or none of its streams have been dropped
  (`DropKeepsCountsIff`).
- If a foreign stream starts to play while none of ours is in flight, the front of our queue is moved to
  the in-flight slot (`Data.StreamHasChanged`).
- An RNF call whose abortion has begun may still get a notification, and then the result is fetched by
  cookie 0 (`FetchedByCookieIff`, `FetchByNoCookie`).
- An RNF call in state `ABORTING` is taken out of that state by the notification for its cookie if and only
  if that cookie is still remembered (`AbortingEndsIffRemembered`). If each cookie is notified at most
  once, then there is a way out of that state if and only if the call has not been notified before, and no
  second abort has been begun before the first one came to its end (`AbortingEndsIff`). So two overlapping
  aborts get stuck (`OverlappingAborts`), and so does a single abort with a notification in between its two
  critical sections (`NotifiedWhileAborting`); the result may even have been fetched by then, and be out of
  reach (`FetchedWhileAborting`).
- Aborting a finished RNF call takes its result away for good (`AbortTakesResultAway`); so does an abort which has
  begun before the call was finished, and comes to its end afterwards (`ResultStaysIff`).
- The promise of an RNF call is set at most once in each interleaving, even if cookies are notified many
  times, unless the fast path function throws (`PromiseSetOnceIff`).

## Model

| member | source | states |
|---|---|---|
| ListNav.Nav.LineNumberByItem | src/listnav.hh:512-520 | an item has a line number if and only if it is in the list and fits into an `int` |
| ListNav.Nav.FixupDownCountByWrapMode | src/listnav.hh:293-336 | the count is cut at the list's end; wrapping happens exactly from the last line in a mode which allows it |
| ListNav.Nav.FixupUpCountByWrapMode | src/listnav.hh:345-387 | the count is cut at the list's start; wrapping happens from the first two lines |
| ListNav.Nav.Down | src/listnav.hh:390-420 | new cursor for any count and wrap mode; true if and only if the cursor has moved |
| ListNav.Nav.Up | src/listnav.hh:422-457 | new cursor for any count and wrap mode; true if and only if the cursor has moved, a list of two lines with wrapping to the bottom excepted |
| ListNav.Nav.SetCursorByLineNumber | src/listnav.hh:475-510 | the line if it exists, or else line 0 |
| FindNext.Cursor.Advance | src/directory_crawler.hh:105-120 | without wrapping, the cursor moves by exactly one line, or not at all and false is returned |
| FindNext.FindNextOp.ContinueSearch | src/directory_crawler_find_next_op.cc:374-454 | moving on, going up, or ending agrees with what the walk has left after the current item; going up is begun in nested lists only |
| FindNext.FindNextOp.AscendToParent | src/directory_crawler_find_next_op.cc:399-453 | the way up is requested with the parent link found; without a link, the walk has nothing but failure left |
| FindNext.FindNextOp.StepOver | src/directory_crawler_find_next_op.cc:189-217 | the directory just left, the end of the list, and a blind line 0 are passed by, and the expected outcome stays the same |
| FindNext.FindNextOp.EnterOrSkipDirectory | src/directory_crawler_find_next_op.cc:312-371 | a directory is entered, skipped or failed on as the walk says, for every answer to the child lookup; the expected outcome stays the same and there is less left to do |
| FindNext.FindNextOp.LookAtItem | src/directory_crawler_find_next_op.cc:219-371 | a file is found exactly where the walk says, and an item which cannot be read means failure |
| FindNext.FindNextOp.FinishWithCurrentItemOrContinue | src/directory_crawler_find_next_op.cc:184-372 | one iteration: the operation has achieved its goal, waits for it, or has less left to do for the same goal |
| FindNext.FindNextOp.RunAsFarAsPossible | src/directory_crawler_find_next_op.cc:95-102 | the loop terminates with the prescribed outcome reported, or waiting for the broker with the same outcome expected |
| FindNext.FindNextOp.UpdateNavigation | src/directory_crawler_find_next_op.cc:475-494 | cursor placed at the requested line, counted from the other end when going backward, clipped to the list |
| FindNext.FindNextOp.DescendEvent | src/directory_crawler_find_next_op.cc:618-632 | entering a child list, or failing to, keeps the expected outcome and uses up work; the new depth is the depth of the new list in the tree |
| FindNext.FindNextOp.AscendEvent | src/directory_crawler_find_next_op.cc:634-653 | entering the parent list puts the cursor on the directory left, keeps the expected outcome and uses up work; the new depth is the depth of the parent list in the tree |
| FindNext.FindNextOp.FirstEntryEvent | src/directory_crawler_find_next_op.cc:585-616 | the first list entered has depth 1, and an empty one ends the search right away; the assertion fails if and only if there is a direction and the depth is not 0 |
| FindNext.FindNextOp.EnterListEvent | src/directory_crawler_find_next_op.cc:573-655 | each answer to an enter-list request leads to the prescribed outcome or another wait, with progress |
| FindNext.FindNextOp.Start | src/directory_crawler_find_next_op.cc:657-705 | a fresh operation sets out for the outcome prescribed by the walk from its starting position, for both find modes and all directions |
| FindNext.FindNextOp.DoContinue | src/directory_crawler_find_next_op.cc:707-724 | FIND_NEXT begins behind the current item, FIND_FIRST with it |
| FindNext.FindNextOp.RunToCompletion | src/directory_crawler_find_next_op.cc:95-102 | any sequence of events ends, and the outcome prescribed at the start is reported |
| FindNext.FindNextOp.DepthIsTreeDepth | src/directory_crawler_find_next_op.cc:597-652 | whenever a list has been entered, the depth is the number of directories entered from the root on, the only one in a proper tree, and lies in 1 to 100; going up is begun at depth 2 or more |
| CrawlOrder.DepthIsUnique | src/directory_crawler_find_next_op.cc:597-652 | a list below a root without parent has got one depth only |
| CrawlTree.Search.FirstAppend | src/directory_crawler_find_next_op.cc:95-102 | the first stop in two consecutive parts of the walk |
| CrawlTree.Search.LookStep | src/directory_crawler_find_next_op.cc:314-371 | what is left after looking at an item, at any depth, is a smaller walk with the same first stop |
| CrawlTree.Search.LeaveStep | src/directory_crawler_find_next_op.cc:389-453 | what is left at the end of a nested list is what is left after the directory in the parent list, with its line clipped to that list |
| CrawlOrder.WalkSorted | src/directory_crawler_find_next_op.cc:184-454 | the forward walk looks at items in strict preorder, hence each one once |
| CrawlOrder.WalkStaysBelow | src/directory_crawler_find_next_op.cc:184-454 | all items looked at are reachable, at their true depth, from the given line on |
| CrawlOrder.FromIsSuffix | src/directory_crawler_find_next_op.cc:374-454 | list, line and depth determine what is left: it is a suffix of the walk over everything |
| CrawlOrder.AfterIsWhatFollows | src/directory_crawler_find_next_op.cc:707-724 | what is left after an item are exactly the reachable items which follow it in preorder and are not below it |
| CrawlOrder.LeavesPass | src/directory_crawler_find_next_op.cc:389-426 | with consistent parent links, going up never fails |
| CrawlOrder.StopsIff | src/directory_crawler_find_next_op.cc:118-336 | a reachable item is a stop if and only if it is a file, an item the broker does not deliver, or a directory for which one of the twelve hard errors is reported while directories are gone into |
| CrawlOrder.ReachableIff | src/directory_crawler_find_next_op.cc:51-71 | lists are reachable if and only if they are behind less than 100 directories, one in the other, or none in a flat search; the lines of those directories are their place |
| CrawlOrder.FindNextIsNextFile | src/directory_crawler_find_next_op.cc:184-454 | forward FIND_NEXT finds the next file in preorder after the start and its contents, the end if and only if nothing follows at which to stop, or fails at the next stop, which is something it cannot get past |
| CrawlRun.AfterShrinks | src/directory_crawler_find_next_op.cc:707-724 | there is strictly less left after each file found |
| CrawlRun.LaterThanFile | src/directory_crawler_find_next_op.cc:184-454 | nothing is below a file |
| CrawlRun.RunFindsEachFileOnce | src/player_control.cc:2098-2127 | repeated FIND_NEXT operations find exactly the files which follow, in preorder, up to the first failure |
| CrawlBack.WalkIsWhatIsInSight | src/directory_crawler_find_next_op.cc:208-217 | going up from a line, exactly the items in sight are looked at |
| CrawlBack.AfterIsWhatIsVisible | src/directory_crawler_find_next_op.cc:374-454 | a backward search looks at exactly the visible items before its start |
| CrawlBack.EarlierFollows | src/directory_crawler_find_next_op.cc:374-454 | what a backward search looks at comes before its start in preorder |
| CrawlBack.FollowsIsEarlier | src/directory_crawler_find_next_op.cc:374-454 | conversely, everything before the start in preorder is earlier, directories leading to the start aside |
| CrawlBack.AfterReverseSorted | src/directory_crawler_find_next_op.cc:184-454 | stops are met in reverse preorder |
| CrawlBack.FindNextBackward | src/directory_crawler_find_next_op.cc:184-454 | a file found backward comes before the start, and it is the last visible stop; none is found if and only if nothing is visible to stop at |
| CrawlBack.FoundIffVisible | src/directory_crawler_find_next_op.cc:208-217 | the file right before the start is found if and only if it is visible |
| CrawlBack.BackwardIsComplete | src/directory_crawler_find_next_op.cc:208-217 | without blind spots, the file right before the start is found |
| CrawlLimits.BackwardOverlooksFirstItem | src/directory_crawler_find_next_op.cc:208-217 | a directory holding a single file is searched in vain |
| CrawlLimits.FlatSearchGoesUpIff | src/playlist_crawler_ops.hh:59 | a flat search leaves its list, in either direction, if and only if that list is nested and nothing ahead is to be stopped at |
| CrawlLimits.FlatEndsElsewhere | src/playlist_crawler_ops.hh:59 | a flat search which ends in another list |
| CrawlDepth.ZeroAndOne | src/view_filebrowser.cc:1045-1051 | what is found at depth 0 and what is found at depth 1, in either direction, from the parts inside and behind the first directory |
| CrawlDepth.DepthZeroAgreesIff | src/view_filebrowser.cc:1045-1051 | a search at depth 0 ends as intended if and only if there is no directory ahead of its first stop, or nothing stops it inside of the first one nor behind, or it finds a file inside which is not on the deepest level nor, searching backward, in line 0 on the level above, or it fails inside and is meant to fail |
| CrawlDepth.DepthZeroAgreesIfShallow | src/view_filebrowser.cc:1045-1051 | the same without the detail about levels, for directories nested less deeply than allowed |
| CrawlDepth.SkipAtDepthZero | src/player_control.cc:1117-1125 | a FIND_NEXT operation at depth 0 is such a search, beginning behind the current item |
| CrawlDepth.DeeperSame | src/directory_crawler_find_next_op.cc:51-71 | taken to be one level further down, a walk which stays above the deepest levels has got the same first stop |
| CrawlDepth.DeeperFound | src/directory_crawler_find_next_op.cc:51-71 | in either direction, a file found is found one level further down if and only if it is not at the deepest level nor, searching backward, in a line 0 which becomes blind because no directory is entered on that level |
| CrawlDepth.DepthLimitDiffers | src/directory_crawler_find_next_op.cc:51-71 | a file at the limit which is found at depth 0 although it should be out of reach |
| CrawlDepth.DepthZeroMissesFile | src/view_filebrowser.cc:1045-1051 | a file missed because of depth 0 which is found at depth 1 |
| Crawler.FindNextFrom | src/directory_crawler_find_next_op.cc:657-724 | one FIND_NEXT operation, from starting to reporting, on a position in a consistent structure |
| Crawler.FindNextFile | src/directory_crawler_find_next_op.cc:657-724 | in either recursive mode, the operation ends on the next file with nothing in between but directories which can be got past, at the end of the list if there is no stop, or it fails on the next stop, which is an item not delivered or a directory with a hard error |
| Crawler.FindPreviousFile | src/directory_crawler_find_next_op.cc:657-724 | in either recursive mode, the operation ends on a file before the start, the last visible stop, with nothing visible in between but directories which can be got past, or at the list's start, or it fails on the last visible stop, which cannot be got past |
| CrawlFirst.FromIsWhatIsNotBefore | src/directory_crawler_find_next_op.cc:707-713 | beginning with an item, exactly the reachable items which do not come before it are looked at |
| CrawlFirst.FindFirstIsFirstFile | src/directory_crawler_find_next_op.cc:707-713 | forward FIND_FIRST finds the first file in preorder at the start or behind it, be it below or not |
| CrawlFirst.FindFirstBackward | src/directory_crawler_find_next_op.cc:707-713 | backward FIND_FIRST finds the last file in sight from its start |
| Crawler.FindFirstFrom | src/directory_crawler_find_next_op.cc:657-724 | one FIND_FIRST operation on a list to be entered; the assertion fails if and only if the position has got a depth |
| Crawler.FindFirstFile | src/directory_crawler_find_next_op.cc:657-724 | in either recursive mode, the operation ends on the first file from the start line on with nothing in between but directories which can be got past, or at the end if there is no stop, or it fails on the first stop, which cannot be got past |
| Crawler.FindFirstHere | src/directory_crawler_find_next_op.cc:657-724 | one FIND_FIRST operation on the list entered last, in both modes and directions, at any depth: it begins with the item under the cursor, and searching forward in the tree, it finds the first file from there on |
| Crawler.LookAtCurrent | src/directory_crawler_find_next_op.cc:189-310 | without a direction, the operation succeeds if and only if there is a file under the cursor, and stays there |
| Crawler.FailsWithoutParent | src/directory_crawler_find_next_op.cc:407-454 | at the end of a nested list, in either direction, the operation fails if the list has no parent which can be entered and holds any items |
| Crawler.ResumeInNestedList | src/view_filebrowser.cc:962-976 | taking up a search in a nested list fails the assertion |
| Crawler.PrefetchAll | src/player_control.cc:2098-2127 | prefetching over and over again yields every file which follows, once each and in preorder, up to the first failure |
| SortedTexts.LessByChar | src/search_algo.cc:419-537 | texts with a common prefix are ordered by the next character |
| SortedTexts.PrefixConvex | src/search_algo.cc:419-537 | texts between two texts with a common prefix have that prefix |
| SortedTexts.BlockSorted | src/search_algo.cc:419-537 | in a block of texts sharing a prefix, the next characters are sorted |
| SortedTexts.ResultIsInsertionPoint | src/search_algo.cc:555-618 | everything in front of the result is smaller than the query, and the result or the line behind it is where the query belongs |
| SortedTexts.ResultIsUnique | src/search_algo.cc:555-618 | there is no more than one correct result |
| SearchAlgo.BSearchState.BoundaryInPair | src/search_algo.cc:450-503 | a partition of two lines is narrowed to the boundary, or an approximate match is found |
| SearchAlgo.BSearchState.NarrowLower | src/search_algo.cc:505-514 | the lower partition, bisected at its own centre, still brackets the bottom-most boundary, and partitions stay coupled |
| SearchAlgo.BSearchState.BisectUpper | src/search_algo.cc:503-522 | the top-most boundary is not lost, and the partition becomes smaller |
| SearchAlgo.BSearchState.BisectLower | src/search_algo.cc:524-536 | the bottom-most boundary is not lost, and the partition becomes smaller |
| SearchAlgo.BSearchState.BSearchBoundary | src/search_algo.cc:419-537 | a step keeps the boundary in the partition, and decreases its size or the number of lines below its centre; a text which ends at the current depth always fails the assertion |
| SearchAlgo.BSearchState.ProbeUpper | src/search_algo.cc:364-381 | whether or not the assertion fails is known from the beginning, and does not change from one probe to the next |
| SearchAlgo.BSearchState.BSearchTopMost | src/search_algo.cc:357-384 | terminates at the first line whose character is not smaller; unsorted input is never reported; the assertion fails if and only if a text which is too short is hit |
| SearchAlgo.BSearchState.BSearchBottomMost | src/search_algo.cc:386-416 | terminates at the last line whose character is not greater; neither an approximate match nor unsorted input is reported, and the assertion never fails |
| SearchAlgo.NextBlock | src/search_algo.cc:351-355 | both boundaries enclose exactly the texts sharing one more character with the query |
| SearchAlgo.ApproximateIsResult | src/search_algo.cc:346-349 | an approximate match is the correct result |
| SearchAlgo.MatchIsResult | src/search_algo.cc:346-349 | a full match is the first text starting with the query |
| SearchAlgo.MatchCharacter | src/search_algo.cc:571-612 | after each character, the block of lines is exactly the one sharing the query read so far |
| SearchAlgo.BinarySearchUtf8 | src/search_algo.cc:555-618 | the result is correct whenever there is one, and has been looked at; there is none only for an empty query or list, or if the line looked at last, and no other one, cannot be read; with all items readable, the assertion fails if and only if for some part of the query such a text is hit |
| SearchAlgo.HitsShortIff | src/search_algo.cc:73-85 | hitting such a text in closed form, by the lines probed: the distance to the block's first line is halved each time |
| SearchAlgo.PrefixesInFront | src/search_algo.cc:73-85 | if there is nothing else in front of the boundary, such a text is hit |
| SearchAlgo.PrefixInFrontIsHit | src/search_algo.cc:73-85 | a text, and a prefix of it in front, searched for that text |
| SearchAlgo.PrefixMayBeMissed | src/search_algo.cc:73-85 | a proper prefix of one query which is hit, and of another one which is not |
| SearchAlgo.SearchAmongPrefixes | src/search_algo.cc:73-85 | with nothing but proper prefixes of the query in front of the boundary, whatever else is in the list, the assertion always fails |
| CacheSegment.IntersectionSize | src/cache_segment.hh:126-214 | the size computed is the number of common lines |
| CacheSegment.IntersectionShape | src/cache_segment.hh:151-214 | for segments which are not empty, each shape is reported if and only if its definition in terms of lines applies |
| CacheSegment.IntersectionOfEmpty | src/cache_segment.hh:129-149 | shapes reported for empty segments, by their places |
| CacheSegment.MissingIsExact | src/dbuslist_viewport.cc:95-120 | the missing segment is exactly view minus cache, unless there is something cached in the center only |
| RamLists.RamList.Clear | src/ramlist.cc:41-47 | everything received has been deleted |
| RamLists.RamList.Append | src/ramlist.cc:57-61 | one more item is owned, nothing is deleted |
| RamLists.RamList.Replace | src/ramlist.cc:63-69 | the slot's old item is deleted, and that one only |
| RamLists.RamList.ShiftUp | src/ramlist.cc:71-79 | the first items are deleted, the others move up, vacated slots are null |
| RamLists.RamList.ShiftDown | src/ramlist.cc:81-89 | the last items are deleted, the others move down, vacated slots are null |
| RamLists.OwnedConcat | src/ramlist.cc:30-89 | ownership adds up over parts of the vector |
| RamLists.Shifted | src/ramlist.cc:71-89 | shifting neither duplicates nor loses any item |
| RamLists.RamList.HeldOnce | src/ramlist.cc:30-89 | an item is held in one slot only, and no item held has been deleted |
| Viewports.ChooseView | src/dbuslist_viewport.cc:64-93 | the view begins with the line asked for, or as far in front of it as it takes to be filled up, and is as large as the list permits |
| Viewports.Viewport.SetView | src/dbuslist_viewport.cc:64-93 | the view, by its first line and size; which part of it has been cached, by its first and last lines; and how many lines |
| Viewports.Viewport.OverlapIsExact | src/dbuslist_viewport.cc:29-62 | overlap is reported exactly: the number of common lines; all lines; the top if and only if the first line is cached and the last one is not; the bottom the other way around; the center if and only if neither is cached, but something is |
| Viewports.Viewport.ClearForLine | src/dbuslist_viewport.hh:266-272 | the cache is empty afterwards, and its items have been deleted |
| Viewports.Viewport.PrepareUpdate | src/dbuslist_viewport.cc:122-149 | the slots are rearranged for the view, with or without empty slots behind the cached items; nothing is leaked |
| Viewports.Viewport.UpdateCacheRegionSimple | src/dbuslist_viewport.cc:151-174 | the items received are written at the gap, or appended to an empty cache, and nothing else changes |
| Viewports.GapFits | src/dbuslist_viewport.cc:122-149 | for a view of the usual size, the missing items fit into the gap |
| Viewports.MissingInList | src/dbuslist_viewport.cc:95-120 | only existing lines in the view are asked for |
| Viewports.RefillHolds | src/dbuslist_viewport.cc:95-174 | after rearranging and writing, the cache holds exactly the lines of the view |
| Viewports.RefillFitsIff | src/dbuslist_viewport.cc:138-145 | the items fetched fit into the vector if and only if the view isn't too large for the part cached |
| Viewports.RefillAgreesIff | src/dbuslist_viewport.cc:95-174 | with any number of empty slots behind the cached items, after a refill, each item in view is the one in the list if and only if the sizes of view, cached segment and vector are right for the part cached; empty slots are behind the items only, as before |
| Viewports.RefillRun | src/dbuslist_viewport.cc:95-174 | over any number of refills for views of any sizes which work, each item in view is the one in the list |
| Viewports.SmallerViewLosesLine | src/dbuslist_viewport.cc:143-145 | a view smaller than the cache, in which a cached line gets lost |
| Viewports.SecondRefillLosesLine | src/dbuslist_viewport.cc:138-141 | two views in a row, the second one as large as the part cached: an item is shown in the wrong line, and another one is lost |
| Viewports.UpdateViewportCache | src/dbuslist.cc:553-569 | one refill shows exactly the list's items in the view if and only if it works for that view; with a view of the usual size, the cache still agrees with the list; the segment is the view unless there has been nothing to fetch |
| DBusLists.NotCachedIsMissing | src/dbuslist.cc:598-602 | a line in view which is not cached leads to a fetch |
| DBusLists.FetchInto | src/dbuslist.cc:598-625 | exactly one window is asked for, and it consists of the lines in view which are not cached; the call fails if and only if the broker does; the item fetched is the one in the list, and the cache covers the view; a failed fetch leaves the cache as it was |
| DBusLists.DBusList.GetItem | src/dbuslist.cc:571-626 | the result is the list's item in that line; it is null if there is no such line, or if the broker has failed to deliver the one window asked for, which consists of the lines in view which are not cached; nothing is asked for if the line is cached or does not exist; all registered caches still agree with the list |
| DBusLists.FirstUseIff | src/dbuslist.cc:546-551 | with a viewport holding items of another list, the result is right if and only if the line has not been cached or the items are the same |
| DBusLists.StaleItem | src/dbuslist.cc:546-551 | the item of another list is returned |
| DBusLists.Run | src/dbuslist.cc:251-677 | over all sequences of reading, entering lists, and detaching, on any number of viewports, there is one answer for each item read, for the line asked for, and right for the list entered last, with what has been asked for on the way; the ledger of what is registered, cached and asked for, as it follows from the events, agrees with the viewports and the broker; only viewports holding items of another list are not used for reading |
| DBusLists.AnswerIsRight | src/dbuslist.cc:571-626 | an answer is the item asked for in the list entered last, or null because there is no such line, or because the broker has failed to deliver the one window asked for, which the line is in |
| DBusLists.StaleIff | src/dbuslist.cc:546-551 | reading through a viewport is refused if and only if some other list has been entered while the viewport held items and was not registered |
| DBusLists.NothingRefused | src/dbuslist.cc:571-626 | as long as no other list is entered, each read is answered |
| DBusLists.DBusList.EnterListDone | src/dbuslist.cc:269-283 | after entering another list, every registered viewport is empty and agrees with the new list |
| DBusLists.DBusList.DetachViewport | src/dbuslist.cc:669-677 | the viewport is not registered anymore, the others still agree with the list |
| QueuedStreams.LogCheckIsExact | src/player_data.cc:410-437 | the consistency check by sizes and single IDs passes if and only if there is data on exactly the queued streams and the one in flight, with distinct valid IDs |
| QueuedStreams.ListRefs.Ref | src/player_data.cc:501-510 | one more reference, for that list only |
| QueuedStreams.ListRefs.Unref | src/player_data.cc:512-524 | one reference less, for that list only, and not below zero |
| QueuedStreams.QueuedStreams.Arc | src/player_data.cc:69-76 | the IDs tried before a given one, and their number |
| QueuedStreams.QueuedStreams.AllTaken | src/player_data.cc:69-76 | there are no more IDs tried in vain than streams, by counting |
| QueuedStreams.QueuedStreams.FreshId | src/player_data.cc:69-76 | terminates with the first unused ID, in any cyclic ID space with more IDs than streams |
| QueuedStreams.QueuedStreams.Append | src/player_data.cc:55-92 | refused if and only if there are 20 streams in the queue; otherwise, the stream is queued last under an unused ID; consistency is kept |
| QueuedStreams.QueuedStreams.EraseStream | src/player_data.cc:94-122 | exactly that stream is gone and unreferenced; an exception if and only if there is none |
| QueuedStreams.MirrorsRemove | src/player_data.cc:124-198 | removing an ID from queue and data keeps them consistent, so there is no exception |
| QueuedStreams.QueuedStreams.RemoveFront | src/player_data.cc:124-171 | the queue's front is preferred over the stream in flight; the exception if and only if neither is to be removed |
| QueuedStreams.QueuedStreams.RemoveAnywhere | src/player_data.cc:173-198 | the ID is cut out of the queue if it is in there; others keep their order |
| QueuedStreams.QueuedStreams.ShiftUnless | src/player_data.cc:215-235 | the stream in flight is replaced by the queue's front unless it is the given one |
| QueuedStreams.QueuedStreams.Shift | src/player_data.cc:200-213 | succeeds if and only if the expected stream is next or in flight, and has it in flight then |
| QueuedStreams.QueuedStreams.ShiftIfNotFlying | src/player_data.cc:237-249 | the front takes off if and only if nothing is in flight |
| QueuedStreams.QueuedStreams.NotifyRemoved | src/player_data.cc:290-300 | each list loses as many references as it has streams among those removed |
| QueuedStreams.QueuedStreams.Clear | src/player_data.cc:269-284 | nothing is left, and all references are dropped |
| QueuedStreams.QueuedStreams.ClearIf | src/player_data.cc:286-338 | exactly the streams picked are gone from data, queue and flight; each list loses their references |
| QueuedStreams.QueuedStreams.Retain | src/player_data.cc:302-337 | the short cuts for all and for no streams removed give the same result as the general case |
| QueuedStreams.KeptElements | src/player_data.cc:323-332 | filtering the queue keeps exactly the remaining IDs, and keeps them distinct |
| QueuedStreams.KeptInOrder | src/player_data.cc:323-332 | one stream is in front of another after filtering if and only if it was before, and both remain |
| QueuedStreams.MirrorsKept | src/player_data.cc:286-338 | filtering keeps the mirror consistent |
| QueuedStreams.HeldSplit | src/player_data.cc:286-300 | streams of a list are those removed and those remaining |
| PlayerData.Data.QueuedStreamAppend | src/player_data.cc:526-544 | refused if and only if there are 20 streams in the queue; a reference is added if and only if a stream has been queued; exact counts stay exact |
| PlayerData.AppendsFillUp | src/player_data.cc:55-92 | over any run of additions, beginning with nothing, the first 20 streams are queued in order, with distinct IDs, and all further ones are refused |
| PlayerData.Data.QueuedStreamPlayingNext | src/player_data.cc:557-560 | the front takes off if nothing is in flight; no reference changes |
| PlayerData.Data.QueuedStreamRemove | src/player_data.cc:583-587 | one stream is gone from wherever it was; exact counts stay exact |
| PlayerData.Data.RemoveAllQueuedStreams | src/player_data.cc:589-597 | the queue is empty, and the stream in flight is left if so desired; exact counts stay exact |
| PlayerData.Data.Clear | src/player_data.cc:599-603 | everything is forgotten, and counts which were not too high are exact |
| PlayerData.Data.StreamHasChanged | src/player_data.cc:605-625 | the assertion fails if and only if there is no next stream and the queue is filled; otherwise, after one of our streams has started, it is in flight, or everything is cleared; success if and only if it was next or in flight |
| PlayerData.OurIdsIff | src/player_data.cc:644-654 | exactly the valid IDs among our own streams are picked from those dropped |
| PlayerData.DroppedIsAskedFor | src/player_data.cc:656-691 | only streams asked for are dropped, and all of them unless the queue is used up |
| PlayerData.DropDone | src/player_data.cc:656-691 | when the loop ends, the longest droppable front of the queue is gone |
| PlayerData.DropFails | src/player_data.cc:660-670 | the exception occurs only if the streams cannot be accounted for |
| PlayerData.Data.DropNext | src/player_data.cc:656-691 | one iteration drops one stream asked for, or the streams cannot be accounted for |
| PlayerData.Data.PlayerDroppedFromQueue | src/player_data.cc:627-699 | terminates; succeeds if and only if the streams are the queue's front, possibly with the one in flight, or cover the whole queue; the new queue is the rest; on failure, everything is cleared |
| PlayerData.CountedTwiceInSteps | src/player_data.cc:690 | double accounting adds up over iterations |
| PlayerData.DropKeepsCountsIff | src/player_data.cc:690 | counts remain exact if and only if, for each list, all or none of its streams have been dropped |
| PlayerData.DropLosesReference | src/player_data.cc:690 | a list with a stream left which is not referenced anymore |
| PlayerData.Data.PlayerRejectedUnplayedStream | src/player_data.cc:701-726 | a rejected stream is cut out of the queue, the one in flight is never touched; counts are not too high |
| PlayerData.Data.PlayerFinishedAndIdle | src/player_data.cc:728-734 | nothing is left, and no list is referenced |
| PlayerData.Data.Run | src/player_data.cc:526-734 | over all sequences of operations, up to a failing assertion, each state follows from the one before by its event; the mirror is consistent and counts are not too high; they are exact if nothing is dropped or rejected |
| RnfCall.StepKeepsSound | src/rnfcall.cc:41-141 | each step in each state keeps the invariant; a promise once set is not set again |
| RnfCall.RunIsSound | src/rnfcall.hh:470-660 | the invariant holds after each interleaving of requests, notifications, fetches, and halves of aborts |
| RnfCall.PromiseSetOnceIff | src/rnfcall.hh:504-537 | over all interleavings, the promise is set at most once if and only if the fast path function has not thrown |
| RnfCall.FastPathStays | src/rnfcall.hh:517-521 | a call answered right away never waits and is never ready to be fetched |
| RnfCall.ResultIsThere | src/rnfcall.hh:707-741 | retrieving a result never waits for a promise not set, and a successful call has a value |
| RnfCall.NoLostWakeup | src/rnfcall.cc:103-141 | a waiting call, even one being aborted, is woken up by the notification for its cookie, and by no other |
| RnfCall.FetchedByCookieIff | src/rnfcall.hh:633-635 | the result is fetched by its cookie if and only if no abort has begun, otherwise by cookie 0 |
| RnfCall.FetchByNoCookie | src/rnfcall.cc:77-93 | a run which gets there |
| RnfCall.AbortingEndsIffRemembered | src/rnfcall.cc:116-129 | the notification for its cookie, and no other, ends an abortion, if and only if the cookie is still remembered |
| RnfCall.AbortingEndsIff | src/rnfcall.cc:41-141 | with each cookie notified at most once, there is a way out of an abortion if and only if the call has not been notified before and there has been a single abort until then |
| RnfCall.UnnotifiedRun | src/rnfcall.cc:77-93 | what the aborts begun so far tell about the state of a call which has not been notified |
| RnfCall.StuckInAborting | src/rnfcall.cc:103-141 | without the notification for its cookie, or with the cookie forgotten, the state does not change anymore |
| RnfCall.OverlappingAborts | src/rnfcall.cc:77-93 | two overlapping aborts get stuck |
| RnfCall.NotifiedWhileAborting | src/rnfcall.cc:84-93 | a single abort gets stuck if the notification comes in between its critical sections |
| RnfCall.FetchedWhileAborting | src/rnfcall.cc:84-93 | the same, and the result fetched in the meantime is out of reach |
| RnfCall.AbortTakesResultAway | src/rnfcall.cc:55-64 | after a finished call has been aborted, whatever happens next, there is no result, retrieving it is answered by AbortedError, and no further abort succeeds, unless the call is destroyed |
| RnfCall.ResultStaysIff | src/rnfcall.hh:707-741 | conversely, from the event by which it is finished on, a call has its result, and the one it has been finished with, if and only if no abort has begun, none underway has come to its end, and it has not been destroyed |
| RnfCall.ResultStaysUntilAbort | src/rnfcall.hh:707-741 | with no abort underway when it is finished, a call has its result if and only if no abort has begun and it has not been destroyed |
| RnfCall.Call.Request | src/rnfcall.hh:470-540 | the new state for every kind of answer; refused in all states but the initial one |
| RnfCall.Call.Notification | src/rnfcall.cc:103-141 | the new state for every cookie and state; a waiting call is woken up by its cookie, and by no other |
| RnfCall.Call.FetchUnlocked | src/rnfcall.hh:611-660 | true, false or refused depending on the state reached; a promise which has been set is left alone |
| RnfCall.Call.AbortBegin | src/rnfcall.cc:41-84 | the lock is released if and only if there is a cookie to be aborted, and that is the one requested; a finished call is marked as aborted, and that is refused the second time |
| RnfCall.Call.AbortEnd | src/rnfcall.cc:86-100 | the state is set unconditionally if the broker has aborted the cookie |
| RnfCall.Call.GetResultUnlocked | src/rnfcall.hh:707-741 | a result, and which exception otherwise; the promise has been set whenever it is read |
| DcpQueue.MergedHasAll | src/dcp_transaction_queue.cc:53-62 | no update flag is lost by merging and none is made up; the last busy flag known counts |
| DcpQueue.AccountsNew | src/dcp_transaction_queue.cc:48-50 | a new entry is the pending updates of its view |
| DcpQueue.AccountsMerged | src/dcp_transaction_queue.cc:51-62 | so is an entry updated in place |
| DcpQueue.AccountsHanded | src/dcp_transaction_queue.cc:136-137 | the entry handed to the writer is all its view's pending updates merged, and none is left |
| DcpQueue.FlagsConserved | src/dcp_transaction_queue.cc:35-63 | for each view, the flags ever added are those handed to the writer and those in the queue |
| DcpQueue.Transaction.Start | src/dcp_transaction.cc:35-61 | true if and only if the transaction may be written now; asynchronous processing is scheduled if forced while idle |
| DcpQueue.Transaction.Commit | src/dcp_transaction.cc:106-145 | what has been written is sent once, and the timeout is armed |
| DcpQueue.Transaction.Abort | src/dcp_transaction.cc:166-184 | nothing is sent, and the timeout is disarmed |
| DcpQueue.Queue.Add | src/dcp_transaction_queue.cc:35-63 | at most one entry per view, merged in place or appended; invariant kept |
| DcpQueue.Queue.MergeInto | src/dcp_transaction_queue.cc:53-62 | updating in place is merging |
| DcpQueue.Queue.Process | src/dcp_transaction_queue.cc:114-154 | entries are handed over in order up to the first one the writer goes along with; only that one is sent; nothing happens while waiting for an answer |
| DcpQueue.Queue.ProcessPendingTransactions | src/dcp_transaction_queue.cc:103-112 | no more than one entry is sent |
| DcpQueue.Queue.StartTransaction | src/dcp_transaction_queue.cc:65-101 | nothing happens during a transaction; forced asynchronous mode leaves the queue alone and schedules processing once |
| DcpQueue.Queue.FinishTransaction | src/dcp_transaction_queue.cc:156-187 | idle afterwards with no active entry and the timeout disarmed, true unless an error was reported; closing and aborting cannot fail; the assertion fails if and only if success is reported while processing has only been scheduled |

## Left out

- `msg_log_assert` is not part of this model: a failing assertion is taken to end the program, or at least the operation it is in.
- D-Bus, GLib, XML writing, named pipes, logging, locks as such, configuration and views: the broker's and the writer's answers are parameters or objects with contracts.
- ListNav.Nav.Down: the selected line and the first line displayed are not modelled, and neither are filters which hide items; the crawler does not use them.
- ListNav.Nav.Up: the same.
- ListNav.Nav.SetCursorByLineNumber: the same.
- FindNext.FindNextOp.ContinueSearch: enter-list requests which cannot even be made, or are canceled, are not modelled: some other operation takes over, or there is no connection.
- FindNext.FindNextOp.AscendToParent: the same.
- FindNext.FindNextOp.EnterOrSkipDirectory: the same; and the child lookup in `src/view_filebrowser_utils.hh` is told to suppress errors, so that the hard errors modelled here do not occur in practice; they are modelled because the code handles them.
- FindNext.FindNextOp.LookAtItem: the BUSY and CANCELED results of the list are not modelled.
- FindNext.FindNextOp.FinishWithCurrentItemOrContinue: the same.
- FindNext.FindNextOp.EnterListEvent: canceled answers, which are ignored, and the IDs of other callers are not modelled.
- FindNext.FindNextOp.Start: an enter-list request which fails at once or is canceled is not modelled; lists have at most INT_MAX + 1 items; a FIND_NEXT operation has a position in the list entered last, as the source assumes.
- FindNext.DBusList.HintPlannedAccess: the number of answers given late is finite; failures of loading in the background show up as failures to deliver the item.
- Meta data, and the counters of items and directories kept by `FindNextOp` for progress reports.
- CrawlDepth.DepthZeroAgreesIff: if the search fails inside of the directory, then the condition compares this to the first stop with the directory taken to be one level further down, because what follows an item out of reach may be anything; for directories nested less deeply, see `DepthZeroAgreesIfShallow`.
- SearchAlgo.BinarySearchUtf8: if some items cannot be retrieved, it is not stated beforehand whether the search fails because of those or because of the assertion; which one it has been follows from the line looked at last. Lists which are not sorted are not considered, and neither is UTF-8: texts are sequences of characters after case folding.
- DBusLists.DBusList.GetItem: the viewport must be registered, or it must be empty or agree with the list; for other ones, see `FirstUseIff`.
- DBusLists.Run: viewports which have not been registered while another list was entered, and are not empty, are refused; for these, see `FirstUseIff`.
- The asynchronous interface of `DBusList` with overlapping fetches, and the synchronous `enter_list`, which updates the size only: no agreement of cache and list is claimed for these.
- `update_cache_region_with_meta_data`: of the same shape as `update_cache_region_simple`.
- `stream_id.hh` is not part of this model: stream IDs are a circle of valid IDs, larger than 21, and an invalid one.
- QueuedStreams.QueuedStreams.Append: stream key, URIs, links, meta data and cursor of a stream are not modelled, and neither are transitions from floating to queued and current.
- PlayerData.Data.Run: for events other than adding, dropping or rejecting streams, reference counts are only said to stay exact, or not too high, as they have been.
- RnfCall.Call.FetchUnlocked: fetching under the lock is a single step, and a fetch function which throws has not set the promise, as its documentation demands.
- DcpQueue.Queue.Process: the writer does not call back into the queue.
