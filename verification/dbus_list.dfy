// The synchronous side of List::DBusList (src/dbuslist.cc): reading items of a remote list through
// any number of registered viewports.
module DBusLists {
  import opened UInt
  import opened CacheSegment
  import opened RamLists
  import opened Viewports
  import opened Wrappers

  class DBusList<T(==)> {
    // the list the broker has, and its size as far as we know
    ghost var remote: seq<T>
    var numberOfItems: uint32
    var viewports: set<Viewport<T>>
    // the broker's answers
    const broker: Broker<T>

    constructor (broker: Broker<T>)
      requires broker.contents == []
      ensures Valid() && viewports == {} && this.broker == broker
    {
      this.broker := broker;
      numberOfItems := 0;
      viewports := {};
      remote := [];
    }

    ghost predicate Valid()
      reads this, broker, viewports, set v | v in viewports :: v.items
    {
      && broker.contents == remote && |remote| == numberOfItems
      && (forall v :: v in viewports ==> v.Valid() && v.Caches(remote))
      && (forall v, w :: v in viewports && w in viewports && v != w ==> v.items != w.items)
    }

    // The viewport may be used with this list: it is registered, or it is empty.
    ghost predicate Usable(vp: Viewport<T>)
      reads this, viewports, vp, vp.items
    {
      && vp.Valid() && vp.Caches(remote)
      && forall v :: v in viewports && v != vp ==> v.items != vp.items
    }

    // Read the item in the given line, from the broker if it has not been cached.  `failed` tells
    // whether or not fetching items has failed in this call.
    method GetItem(vp: Viewport<T>, line: uint32) returns (item: Slot<T>, failed: bool)
      requires Valid() && Usable(vp)
      modifies this`viewports, vp, vp.items, broker`requests
      ensures Valid() && viewports == old(viewports) + {vp} && remote == old(remote)
      ensures line >= |remote| || line in old(vp.itemsSegment.Lines()) ==> broker.requests == old(broker.requests)
      ensures line < |remote| && line !in old(vp.itemsSegment.Lines()) ==>
                && vp.view == ViewFor(line, vp.cacheSize, |remote|)
                && |broker.requests| == |old(broker.requests)| + 1 && old(broker.requests) <= broker.requests
                && broker.requests[|old(broker.requests)|].failed == failed
                && broker.requests[|old(broker.requests)|].window.Lines() ==
                   vp.view.Lines() - old(vp.itemsSegment.Lines())
                && (vp.cacheSize > 0 && !failed ==> vp.itemsSegment == vp.view)
      ensures failed ==> |broker.requests| == |old(broker.requests)| + 1
      ensures item.Some? ==> line < |remote| && item.value.content == remote[line]
      ensures line >= |remote| ==> item == None && !failed
      ensures line < |remote| && vp.cacheSize > 0 && !failed ==> item.Some?
      ensures line in old(vp.itemsSegment.Lines()) ==> !failed && item.Some? && vp.items.items == old(vp.items.items)
      ensures vp.itemsSegment.count > 0 <==> old(vp.itemsSegment.count) > 0 || item.Some?
      ensures failed ==> item == None && vp.itemsSegment == old(vp.itemsSegment)
                         && vp.items.items == old(vp.items.items)
    {
      hide Segment.Beyond, Owned, OwnedBy;
      viewports := viewports + {vp};
      failed := false;
      if line >= numberOfItems {
        return None, false;
      }
      var cached := vp.ItemAt(line);
      vp.CachedItem(remote, line);
      if cached.0.Some? {
        NotInEmptySegment(vp.itemsSegment, line);
        return cached.0, false;
      }
      item, failed := Fetch(vp, line);
    }

    method Fetch(vp: Viewport<T>, line: uint32) returns (item: Slot<T>, failed: bool)
      requires Valid() && vp in viewports && line < numberOfItems && line !in vp.itemsSegment.Lines()
      modifies vp, vp.items, broker`requests
      ensures Valid() && vp.view == ViewFor(line, vp.cacheSize, |remote|)
      ensures AsksForMissing(old(broker.requests), broker.requests, vp.view, old(vp.itemsSegment), failed)
      ensures item.Some? ==> item.value.content == remote[line]
      ensures vp.cacheSize > 0 && !failed ==> item.Some? && vp.itemsSegment == vp.view
      ensures vp.itemsSegment.count > 0 <==> old(vp.itemsSegment.count) > 0 || item.Some?
      ensures failed ==> item == None && vp.itemsSegment == old(vp.itemsSegment)
                         && vp.items.items == old(vp.items.items)
    {
      hide Segment.Beyond, Segment.Lines, Owned, OwnedBy, Viewport.Valid, Viewport.Caches, AsksForMissing, ViewFor;
      item, failed := FetchInto(vp, line, numberOfItems, broker);
    }

    method DetachViewport(vp: Viewport<T>)
      requires Valid()
      modifies this`viewports
      ensures Valid() && viewports == old(viewports) - {vp} && remote == old(remote)
    {
      viewports := viewports - {vp};
    }

    // enter_list_async_handle_done(): if the other list could be entered, nothing of the list we
    // have been in is left over in any registered viewport.
    method EnterListDone(done: bool, other: seq<T>, associated: Viewport<T>, line: uint32)
      requires Valid() && |other| <= UINT_MAX
      modifies this`remote, this`numberOfItems, broker`contents, viewports, set v | v in viewports :: v.items
      ensures Valid() && viewports == old(viewports)
      ensures remote == if done then other else old(remote)
      ensures done ==> forall v :: v in viewports ==>
                v.items.items == [] && v.itemsSegment == Segment(if v == associated then line else 0, 0)
      ensures !done ==> unchanged(this) && forall v :: v in viewports ==> unchanged(v) && unchanged(v.items)
    {
      hide Viewport.Valid;
      if !done {
        return;
      }
      broker.Switch(other);
      remote := other;
      numberOfItems := |other|;
      ClearViewports(viewports, associated, line);
    }
  }

  // The view get_item() needs: it begins with the line asked for, or earlier if the list ends before it does.
  function ViewFor(line: nat, size: nat, total: nat): Segment
    requires line <= total <= UINT_MAX && size <= UINT_MAX
  {
    Segment(Min(line, total - Min(size, total)), Min(size, total))
  }

  // One window is asked for, and it consists of exactly the lines in view which have not been cached.
  ghost predicate AsksForMissing(before: seq<Request>, after: seq<Request>, view: Segment, cached: Segment,
                                 failed: bool) {
    && |after| == |before| + 1 && before <= after && after[|before|].failed == failed
    && after[|before|].window.Lines() == view.Lines() - cached.Lines()
  }

  lemma Asked(before: seq<Request>, after: seq<Request>, window: Segment, view: Segment, cached: Segment, failed: bool)
    requires window.Lines() == view.Lines() - cached.Lines() && after == before + [Request(window, failed)]
    ensures AsksForMissing(before, after, view, cached, failed)
  {
  }

  // What get_item() returns: the cached item, or else the one in the slots after a refill
  function ItemFrom<T>(slots: seq<Slot<T>>, segment: Segment, after: seq<Slot<T>>, view: Segment, line: nat): Slot<T> {
    var cached := SlotAt(slots, segment, line);
    if cached.Some? then cached else SlotAt(after, view, line)
  }

  // A viewport is registered when it is used for the first time, and it is not cleared then.  If it comes with
  // items of some other list, then the right item is returned if and only if it has not been cached, or
  // the two lists have got the same item there.
  lemma {:induction false} FirstUseIff<T>(slots: seq<Slot<T>>, segment: Segment, other: seq<T>, after: seq<Slot<T>>,
                                          view: Segment, list: seq<T>, data: seq<T>, line: nat)
    requires view.NoOverflow() && segment.NoOverflow() && view.line + view.count <= |list|
    requires Covers(slots, other, segment) && view.line <= line < view.line + view.count
    requires view.Intersection(segment).1 <= |slots|
    requires var missing := MissingFrom(view, segment);
             && missing.line + missing.count <= |list| && data == list[missing.line..missing.line + missing.count]
    requires var (mid, gap) := Rearranged(slots, view, segment); Written(mid, after, gap, data)
    ensures var item := ItemFrom(slots, segment, after, view, line);
            && item.Some?
            && (item.value.content == list[line] <==>
                  (segment.line <= line < segment.line + segment.count ==> other[line] == list[line]))
  {
    hide Segment.Lines, Segment.Beyond, Segment.Intersection, Unsigned, Rearranged, Written, MissingFrom;
    if !(segment.line <= line < segment.line + segment.count) {
      FetchedIsRight(slots, segment, after, view, list, data, line);
    }
  }

  // What has not been cached is right after a refill.
  lemma {:induction false} FetchedIsRight<T>(slots: seq<Slot<T>>, segment: Segment, after: seq<Slot<T>>,
                                             view: Segment, list: seq<T>, data: seq<T>, line: nat)
    requires view.NoOverflow() && segment.NoOverflow() && view.line + view.count <= |list|
    requires view.line <= line < view.line + view.count && !(segment.line <= line < segment.line + segment.count)
    requires view.Intersection(segment).1 <= |slots|
    requires var missing := MissingFrom(view, segment);
             && missing.line + missing.count <= |list| && data == list[missing.line..missing.line + missing.count]
    requires var (mid, gap) := Rearranged(slots, view, segment); Written(mid, after, gap, data)
    ensures SlotAt(after, view, line).Some? && SlotAt(after, view, line).value.content == list[line]
  {
    hide Segment.Lines, Segment.Beyond, Unsigned;
    var (shape, size) := view.Intersection(segment);
    if shape == TopRemains {
      TopShape(view, segment);
      assert ContentAt(after, size + (line - view.line - size), data[line - view.line - size]);
    } else if shape == BottomRemains {
      BottomShape(view, segment);
      assert ContentAt(after, 0 + (line - view.line), data[line - view.line]);
    } else {
      assert shape == Disjoint || shape == CenterRemains;
      assert ContentAt(after, line - view.line, data[line - view.line]);
    }
  }

  // The first item of another list is returned.
  lemma StaleItem(after: seq<Slot<int>>, view: Segment)
    ensures var (slots, other, list) := ([Some(Item(0, 10))], [10], [20]);
            && Holds(slots, other, Segment(0, 1))
            && ItemFrom(slots, Segment(0, 1), after, view, 0) == Some(Item(0, 10))
            && ItemFrom(slots, Segment(0, 1), after, view, 0).value.content != list[0]
  {
  }

  // What get_item() has returned, and what it has asked the broker for
  datatype Answer<T> = Answer(line: uint32, item: Slot<T>, failed: bool, asked: seq<Request>)

  // The answer is right for the given list.
  ghost predicate IsRight<T>(a: Answer<T>, list: seq<T>) {
    && (a.item.Some? ==> a.line < |list| && a.item.value.content == list[a.line])
    && (a.line < |list| && !a.failed ==> a.item.Some?)
    && (a.line >= |list| ==> a.item == None && a.asked == [])
    && (a.failed ==> a.item == None)
    && |a.asked| <= 1 && (a.failed <==> |a.asked| == 1 && a.asked[0].failed)
    && (a.asked != [] ==> a.line in a.asked[0].window.Lines())
  }

  datatype Event<T> =
    | Get(vp: Viewport<T>, line: uint32)
    | Enter(done: bool, other: seq<T>, associated: Viewport<T>, line: uint32)
    | Detach(vp: Viewport<T>)

  // What is known about the viewports of an application from the events and answers so far: the list the broker has
  // got, which viewports are registered, which ones have got any items, which of those come from another list, and
  // what the broker has been asked for
  datatype Ledger<T> = Ledger(list: seq<T>, registered: set<Viewport<T>>, holding: set<Viewport<T>>,
                              stale: set<Viewport<T>>, requests: seq<Request>) {
    // No viewport is used for reading as long as there are items of another list in it.
    predicate Refuses(e: Event<T>) {
      e.Get? && e.vp in stale
    }

    function Next(e: Event<T>, answer: Option<Answer<T>>): Ledger<T> {
      match e
      case Get(vp, _) =>
        if answer.None? then this
        else this.(registered := registered + {vp},
                   holding := if answer.value.item.Some? then holding + {vp} else holding,
                   requests := requests + answer.value.asked)
      case Enter(done, other, _, _) =>
        if done then
          this.(list := other, holding := holding - registered, stale := stale + (holding - registered))
        else this
      case Detach(vp) => this.(registered := registered - {vp})
    }
  }

  ghost function After<T>(l: Ledger<T>, events: seq<Event<T>>, answers: seq<Option<Answer<T>>>): Ledger<T>
    requires |events| == |answers|
  {
    if events == [] then l
    else
      var n := |events| - 1;
      After(l, events[..n], answers[..n]).Next(events[n], answers[n])
  }

  // There is an answer for reading an item, unless that is refused; it is an answer for the line asked for, and it
  // is right for the list at that time.
  ghost predicate Answers<T>(l: Ledger<T>, e: Event<T>, answer: Option<Answer<T>>) {
    && (answer.Some? <==> e.Get? && !l.Refuses(e))
    && (answer.Some? ==> answer.value.line == e.line && IsRight(answer.value, l.list))
  }

  // All events so far have been answered.
  ghost predicate Answered<T>(l: Ledger<T>, events: seq<Event<T>>, answers: seq<Option<Answer<T>>>) {
    && |answers| == |events|
    && forall k :: 0 <= k < |events| ==> Answers(After(l, events[..k], answers[..k]), events[k], answers[k])
  }

  lemma OneMoreAnswered<T>(l: Ledger<T>, events: seq<Event<T>>, answers: seq<Option<Answer<T>>>,
                           e: Event<T>, answer: Option<Answer<T>>)
    requires Answered(l, events, answers) && Answers(After(l, events, answers), e, answer)
    ensures Answered(l, events + [e], answers + [answer])
    ensures After(l, events + [e], answers + [answer]) == After(l, events, answers).Next(e, answer)
  {
    hide Answers, Ledger.Next;
    var es, as' := events + [e], answers + [answer];
    assert es[..|events|] == events && as'[..|events|] == answers;
    forall k | 0 <= k < |es|
      ensures Answers(After(l, es[..k], as'[..k]), es[k], as'[k])
    {
      if k < |events| {
        assert es[..k] == events[..k] && as'[..k] == answers[..k];
      }
    }
  }

  // Some other list has been entered while the viewport was not registered and held items, so that those were left.
  ghost predicate LeftBehind<T>(l: Ledger<T>, events: seq<Event<T>>, answers: seq<Option<Answer<T>>>, v: Viewport<T>,
                                j: nat)
    requires |events| == |answers| && j < |events|
  {
    var before := After(l, events[..j], answers[..j]);
    events[j].Enter? && events[j].done && v in before.holding && v !in before.registered
  }

  // Reading is refused if and only if the viewport has been left behind, or has been stale from the beginning.
  lemma {:induction false} StaleIff<T>(l: Ledger<T>, events: seq<Event<T>>, answers: seq<Option<Answer<T>>>,
                                       v: Viewport<T>)
    requires |events| == |answers|
    ensures v in After(l, events, answers).stale <==>
            v in l.stale || exists j :: 0 <= j < |events| && LeftBehind(l, events, answers, v, j)
  {
    if events != [] {
      var n := |events| - 1;
      StaleIff(l, events[..n], answers[..n], v);
      forall j | 0 <= j < n
        ensures LeftBehind(l, events, answers, v, j) <==> LeftBehind(l, events[..n], answers[..n], v, j)
      {
        assert events[..n][..j] == events[..j] && answers[..n][..j] == answers[..j] && events[..n][j] == events[j];
      }
      assert v in After(l, events, answers).stale <==>
             v in After(l, events[..n], answers[..n]).stale || LeftBehind(l, events, answers, v, n);
    }
  }

  // What the answers say: the item asked for in the list entered last, or none because there is no such line, or
  // because the broker has been asked for it and failed to deliver it
  lemma AnswerIsRight<T>(l: Ledger<T>, events: seq<Event<T>>, answers: seq<Option<Answer<T>>>, k: nat)
    requires Answered(l, events, answers) && k < |events| && answers[k].Some?
    ensures var list, a := After(l, events[..k], answers[..k]).list, answers[k].value;
            && events[k].Get? && a.line == events[k].line
            && match a.item
               case Some(item) => a.line < |list| && item.content == list[a.line] && !a.failed
               case None =>
                 if a.line >= |list| then a.asked == [] && !a.failed
                 else a.failed && |a.asked| == 1 && a.asked[0].failed && a.line in a.asked[0].window.Lines()
  {
    hide After;
    assert Answers(After(l, events[..k], answers[..k]), events[k], answers[k]);
  }

  // As long as no other list is entered, no viewport which agrees with the list is refused.
  lemma NothingRefused<T>(l: Ledger<T>, events: seq<Event<T>>, answers: seq<Option<Answer<T>>>, k: nat)
    requires Answered(l, events, answers) && l.stale == {} && k < |events|
    requires forall e :: e in events ==> !(e.Enter? && e.done)
    ensures answers[k].Some? <==> events[k].Get?
  {
    hide IsRight, After;
    assert Answers(After(l, events[..k], answers[..k]), events[k], answers[k]);
    if events[k].Get? {
      StaleIff(l, events[..k], answers[..k], events[k].vp);
      if j :| 0 <= j < k && LeftBehind(l, events[..k], answers[..k], events[k].vp, j) {
        assert events[j] in events;
      }
    }
  }

  // Viewports of different items each, with the registered ones among them
  ghost predicate Pool<T>(list: DBusList<T>, pool: set<Viewport<T>>)
    reads list, pool, set v | v in pool :: v.items
  {
    && list.viewports <= pool
    && (forall v :: v in pool ==> v.Valid() && v.cacheSize > 0)
    && (forall v, w :: v in pool && w in pool && v != w ==> v.items != w.items)
  }

  // The ledger agrees with what there is.
  ghost predicate Books<T>(l: Ledger<T>, list: DBusList<T>, pool: set<Viewport<T>>)
    reads list, list.broker, pool, set v | v in pool :: v.items
  {
    && l.list == list.remote && l.registered == list.viewports && l.stale !! l.registered
    && l.requests == list.broker.requests
    && forall v :: v in pool ==>
         && (v in l.holding <==> v.itemsSegment.count > 0)
         && (v !in l.stale ==> v.Caches(list.remote))
  }

  // Any sequence of operations on any number of viewports: each answer is right for the list entered last.
  method Run<T>(list: DBusList<T>, pool: set<Viewport<T>>, events: seq<Event<T>>, l: Ledger<T>)
      returns (answers: seq<Option<Answer<T>>>)
    requires list.Valid() && Pool(list, pool) && Books(l, list, pool)
    requires forall e :: e in events ==> (e.Get? || e.Detach? ==> e.vp in pool) && (e.Enter? ==> |e.other| <= UINT_MAX)
    modifies list, list.broker, pool, set v | v in pool :: v.items
    ensures list.Valid() && Pool(list, pool)
    ensures Answered(l, events, answers) && Books(After(l, events, answers), list, pool)
  {
    hide Viewport.Valid, Holds, Covers, IsRight, Segment.Lines, Viewport.Caches, Pool, Books, Answers, Answered,
         DBusList.Valid, Ledger.Next, After;
    answers := [];
    var book := l;
    NothingAnswered(l);
    for i := 0 to |events|
      invariant |answers| == i && list.Valid() && Pool(list, pool) && Books(book, list, pool)
      invariant Answered(l, events[..i], answers) && book == After(l, events[..i], answers)
    {
      var answer := Step(list, pool, events[i], book);
      OneMoreAnswered(l, events[..i], answers, events[i], answer);
      assert events[..i + 1] == events[..i] + [events[i]];
      answers := answers + [answer];
      book := book.Next(events[i], answer);
    }
    assert events[..|events|] == events;
  }

  lemma NothingAnswered<T>(l: Ledger<T>)
    ensures Answered(l, [], []) && After(l, [], []) == l
  {
  }

  method Step<T>(list: DBusList<T>, pool: set<Viewport<T>>, e: Event<T>, l: Ledger<T>)
      returns (answer: Option<Answer<T>>)
    requires list.Valid() && Pool(list, pool) && Books(l, list, pool)
    requires (e.Get? || e.Detach? ==> e.vp in pool) && (e.Enter? ==> |e.other| <= UINT_MAX)
    modifies list, list.broker, pool, set v | v in pool :: v.items
    ensures list.Valid() && Pool(list, pool) && Books(l.Next(e, answer), list, pool)
    ensures Answers(l, e, answer)
  {
    hide Viewport.Valid, Holds, Covers, IsRight, Segment.Lines, Viewport.Caches;
    answer := None;
    match e {
      case Get(vp, line) =>
        if !l.Refuses(e) {
          var a := Read(list, vp, line);
          answer := Some(a);
        }
      case Enter(done, other, associated, line) =>
        list.EnterListDone(done, other, associated, line);
        if done {
          forall v | v in pool && v !in l.Next(e, answer).stale
            ensures v.Caches(other)
          {
            EmptyCaches(v, old(list.remote), other);
          }
        }
      case Detach(vp) => list.DetachViewport(vp);
    }
  }

  // Reading an item, with what has been asked for on the way
  method Read<T>(list: DBusList<T>, vp: Viewport<T>, line: uint32) returns (a: Answer<T>)
    requires list.Valid() && list.Usable(vp) && vp.cacheSize > 0
    modifies list`viewports, vp, vp.items, list.broker`requests
    ensures list.Valid() && list.viewports == old(list.viewports) + {vp} && list.remote == old(list.remote)
    ensures IsRight(a, list.remote) && a.line == line && list.broker.requests == old(list.broker.requests) + a.asked
    ensures vp.itemsSegment.count > 0 <==> old(vp.itemsSegment.count) > 0 || a.item.Some?
  {
    hide Viewport.Valid, Viewport.Caches, Segment.Lines, DBusList.Usable, ViewFor, IsRight;
    ghost var cached := vp.itemsSegment;
    var before := list.broker.requests;
    var item, failed := list.GetItem(vp, line);
    a := Answer(line, item, failed, list.broker.requests[|before|..]);
    if line < |list.remote| && line !in cached.Lines() {
      LineInView(line, vp.cacheSize, |list.remote|);
    }
    RightAnswer(a, list.remote);
  }

  lemma RightAnswer<T>(a: Answer<T>, list: seq<T>)
    requires a.item.Some? ==> a.line < |list| && a.item.value.content == list[a.line]
    requires a.line >= |list| ==> a.item == None && a.asked == [] && !a.failed
    requires a.line < |list| && !a.failed ==> a.item.Some?
    requires a.failed ==> a.item == None
    requires |a.asked| <= 1 && (a.failed <==> |a.asked| == 1 && a.asked[0].failed)
    requires a.asked != [] ==> a.line in a.asked[0].window.Lines()
    ensures IsRight(a, list)
  {
  }

  lemma LineInView(line: nat, size: nat, total: nat)
    requires line < total <= UINT_MAX && 0 < size <= UINT_MAX
    ensures line in ViewFor(line, size, total).Lines()
  {
  }

  // An empty cache is right for any list.
  lemma EmptyCaches<T>(v: Viewport<T>, list: seq<T>, other: seq<T>)
    requires v.itemsSegment.count == 0 && (v.Caches(list) || v.items.items == [])
    ensures v.Caches(other)
  {
  }

  ghost predicate Cleared<T>(v: Viewport<T>, line: uint32)
    reads v, v.items
  {
    v.items.items == [] && v.itemsSegment == Segment(line, 0)
  }

  method ClearViewports<T>(viewports: set<Viewport<T>>, associated: Viewport<T>, line: uint32)
    requires forall v :: v in viewports ==> v.Valid()
    requires forall v, w :: v in viewports && w in viewports && v != w ==> v.items != w.items
    modifies viewports, set v | v in viewports :: v.items
    ensures forall v :: v in viewports ==>
              v.Valid() && Cleared(v, if v == associated then line else 0)
  {
    hide Viewport.Valid;
    var todo := viewports;
    while todo != {}
      invariant todo <= viewports
      invariant forall v :: v in viewports ==> v.Valid()
      invariant forall v :: v in viewports && v !in todo ==> Cleared(v, if v == associated then line else 0)
    {
      var v :| v in todo;
      v.ClearForLine(if v == associated then line else 0);
      todo := todo - {v};
    }
  }

  // Move the view to the given line, and refill the cache accordingly.
  method FetchInto<T>(vp: Viewport<T>, line: uint32, numberOfItems: uint32, broker: Broker<T>)
      returns (item: Slot<T>, failed: bool)
    requires vp.Valid() && vp.Caches(broker.contents) && |broker.contents| == numberOfItems
    requires line < numberOfItems && line !in vp.itemsSegment.Lines()
    modifies vp, vp.items, broker`requests
    ensures vp.Valid() && vp.Caches(broker.contents) && vp.view == ViewFor(line, vp.cacheSize, numberOfItems)
    ensures AsksForMissing(old(broker.requests), broker.requests, vp.view, old(vp.itemsSegment), failed)
    ensures item.Some? ==> item.value.content == broker.contents[line]
    ensures vp.cacheSize > 0 && !failed ==> item.Some? && vp.itemsSegment == vp.view
    ensures vp.itemsSegment.count > 0 <==> old(vp.itemsSegment.count) > 0 || item.Some?
    ensures failed ==> item == None && vp.itemsSegment == old(vp.itemsSegment) && vp.items.items == old(vp.items.items)
  {
    hide Segment.Beyond, Segment.Lines, Segment.Intersection, MissingFrom, ChooseView, Owned, OwnedBy, Holds, Covers,
         RefillFits, RefillWorks, IsRefill, ShowsView, Viewport.ItemAt, Viewport.Valid, ViewFits, AsksForMissing;
    var _, _ := vp.SetView(line, vp.cacheSize, numberOfItems);
    var missing := vp.GetMissingSegment();
    ReadyForRefill(vp, broker.contents);
    if vp.cacheSize > 0 {
      NotCachedIsMissing(vp.view, vp.itemsSegment, line);
    }
    WindowIsMissing(vp, broker.contents);
    ghost var before := broker.requests;
    var data := broker.FetchWindowSync(missing);
    Asked(before, broker.requests, missing, vp.view, vp.itemsSegment, data.None?);
    if data.None? {
      return None, true;
    }
    item := RefillAndRead(vp, line, data.value, broker.contents);
    failed := false;
  }

  // Put the items received where they belong.
  method RefillAndRead<T>(vp: Viewport<T>, line: uint32, data: seq<T>, ghost list: seq<T>) returns (item: Slot<T>)
    requires vp.Valid() && vp.Caches(list) && ViewFits(vp.view, vp.cacheSize, list)
    requires var missing := vp.GetMissingSegment();
             && missing.line + missing.count <= |list| && data == list[missing.line..missing.line + missing.count]
             && (vp.cacheSize > 0 ==> missing.count > 0 && line in vp.view.Lines())
    modifies vp`itemsSegment, vp`constructed, vp.items
    ensures vp.Valid() && vp.Caches(list)
    ensures item.Some? ==> line < |list| && item.value.content == list[line]
    ensures if vp.cacheSize > 0 then item.Some? && vp.itemsSegment == vp.view && vp.itemsSegment.count > 0
            else item == None && vp.itemsSegment.count == old(vp.itemsSegment.count) == 0
  {
    hide Segment.Beyond, Segment.Lines, Segment.Intersection, MissingFrom, Owned, OwnedBy, Holds, Covers,
         RefillFits, RefillWorks, IsRefill, ShowsView, Viewport.ItemAt, Viewport.Valid;
    ReadyForRefill(vp, list);
    UpdateViewportCache(vp, data, list);
    LineShown(vp, list, line);
    item := vp.ItemAt(line).0;
  }

  // Fetching for views of the usual size, exactly the lines in view which are not cached are asked for.
  lemma WindowIsMissing<T>(vp: Viewport<T>, list: seq<T>)
    requires vp.Caches(list) && vp.view.count == Min(vp.cacheSize, |list|)
    requires vp.view.NoOverflow() && vp.itemsSegment.NoOverflow()
    ensures vp.GetMissingSegment().Lines() == vp.view.Lines() - vp.itemsSegment.Lines()
  {
    hide Segment.Beyond, Segment.Lines, MissingFrom, Holds, Covers;
    MissingIsExact(vp.view, vp.itemsSegment);
  }

  // What is needed for a refill for a view chosen by set_view()
  lemma ReadyForRefill<T>(vp: Viewport<T>, list: seq<T>)
    requires vp.Valid() && vp.Caches(list) && vp.view.count == Min(vp.cacheSize, |list|)
    requires vp.view.line + vp.view.count <= |list|
    ensures vp.view.NoOverflow() && vp.itemsSegment.NoOverflow() && ViewFits(vp.view, vp.cacheSize, list)
    ensures Covers(vp.items.items, list, vp.itemsSegment)
    ensures RefillFits(|vp.items.items|, vp.view, vp.itemsSegment)
    ensures var missing := vp.GetMissingSegment(); missing.line + missing.count <= |list|
    ensures vp.cacheSize == 0 ==> vp.itemsSegment.count == 0
  {
    hide Segment.Beyond, Segment.Lines, Segment.Intersection, MissingFrom, RefillFits, RefillWorks;
    MissingInList(vp.view, vp.itemsSegment, list);
    UsualSizeFits(vp.items.items, vp.view, vp.itemsSegment, list);
  }

  lemma LineShown<T>(vp: Viewport<T>, list: seq<T>, line: uint32)
    requires vp.Valid() && vp.Caches(list)
    ensures vp.ItemAt(line).0.Some? <==> line in vp.itemsSegment.Lines()
    ensures vp.ItemAt(line).0.Some? ==> line < |list| && vp.ItemAt(line).0.value.content == list[line]
    ensures vp.ItemAt(line).0.Some? ==> vp.itemsSegment.count > 0
    ensures vp.cacheSize == 0 ==> vp.itemsSegment.count == 0
  {
    hide Segment.Beyond, Holds, Covers, Viewport.ItemAt;
    vp.CachedItem(list, line);
  }

  lemma NotInEmptySegment(segment: Segment, line: nat)
    requires line in segment.Lines()
    ensures segment.count > 0
  {
  }

  lemma NotCachedIsMissing(view: Segment, segment: Segment, line: nat)
    requires view.NoOverflow() && segment.NoOverflow() && line in view.Lines() && line !in segment.Lines()
    ensures MissingFrom(view, segment).count > 0
  {
    hide Segment.Lines, Segment.Beyond, Unsigned;
  }

  // A window asked for, and whether or not the broker has failed to deliver it
  datatype Request = Request(window: Segment, failed: bool)

  // The list broker: it delivers the requested items, or it fails.
  class Broker<T(==)> {
    var contents: seq<T>
    // what has been asked for so far
    var requests: seq<Request>

    constructor ()
      ensures contents == [] && requests == []
    {
      contents, requests := [], [];
    }

    method Switch(contents: seq<T>)
      modifies this`contents
      ensures this.contents == contents
    {
      this.contents := contents;
    }

    method FetchWindowSync(window: Segment) returns (data: Option<seq<T>>)
      requires window.line + window.count <= |contents|
      modifies this`requests
      ensures requests == old(requests) + [Request(window, data.None?)]
      ensures data.Some? ==> data.value == contents[window.line..window.line + window.count]
    {
      var fails: bool := *;
      requests := requests + [Request(window, fails)];
      return if fails then None else Some(contents[window.line..window.line + window.count]);
    }
  }
}
