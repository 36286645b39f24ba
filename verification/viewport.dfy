// List::DBusListViewport (src/dbuslist_viewport.cc and .hh): a small window into a remote list,
// with a cache of the items in the window.
module Viewports {
  import opened UInt
  import opened CacheSegment
  import opened RamLists
  import opened Wrappers

  datatype CacheSegmentState = EmptyCache | Cached | CachedTopEmptyBottom | CachedBottomEmptyTop | CachedCenter

  // The view segment set_view() chooses
  function ChooseView(line: uint32, count: uint32, total: uint32): (view: Segment)
    ensures view.NoOverflow() && view.line + view.count <= total
    ensures view.count == Min(count, total)
    ensures view.line == Min(line, total - Min(count, total))
    ensures line < total && count > 0 ==> line in view.Lines()
  {
    var start := if line > UINT_MAX - count then UINT_MAX - count else line;
    if start + count <= total then Segment(start, count)
    else if count <= total then Segment(total - count, count)
    else Segment(0, total)
  }

  // Which part of the view has been cached: all of it, its top, its bottom, or only something in between
  ghost predicate IsOverlap(state: CacheSegmentState, view: Segment, cached: Segment)
    requires view.count > 0
  {
    var first, last := view.line in cached.Lines(), view.line + view.count - 1 in cached.Lines();
    && (state == Cached <==> view.Lines() <= cached.Lines())
    && (state == CachedTopEmptyBottom <==> first && !last)
    && (state == CachedBottomEmptyTop <==> !first && last)
    && (state == CachedCenter <==> !first && !last && !(view.Lines() !! cached.Lines()))
    && (state == EmptyCache <==> view.Lines() !! cached.Lines())
  }

  class Viewport<T(==)> {
    const items: RamList<T>
    var view: Segment
    var itemsSegment: Segment
    const cacheSize: uint32
    // number of items constructed so far
    var constructed: nat

    ghost predicate Valid()
      reads this, items
    {
      && items.Valid() && items.AllDistinct()
      && (forall x :: x in items.received ==> x.serial < constructed)
      && view.NoOverflow() && itemsSegment.NoOverflow()
    }

    constructor (cacheSize: uint32)
      ensures Valid() && fresh(items) && this.cacheSize == cacheSize
      ensures items.items == [] && itemsSegment == view == Segment(0, 0)
    {
      items := new RamList();
      view := Segment(0, 0);
      itemsSegment := Segment(0, 0);
      this.cacheSize := cacheSize;
      constructed := 0;
    }

    // The cached items are those found in the list, and there is nothing or a full view of them.
    ghost predicate Caches(list: seq<T>)
      reads this, items
    {
      && |items.items| == itemsSegment.count
      && (itemsSegment.count > 0 ==>
            && itemsSegment.count == Min(cacheSize, |list|)
            && itemsSegment.line + itemsSegment.count <= |list|)
      && Holds(items.items, list, itemsSegment)
    }

    function ItemAt(line: uint32): (r: (Slot<T>, bool))
      reads this, items
      ensures itemsSegment.NoOverflow() ==> r.0 == SlotAt(items.items, itemsSegment, line)
    {
      (if itemsSegment.ContainsLine(line) && line >= itemsSegment.line then items.GetItem(line - itemsSegment.line)
       else None,
       view.ContainsLine(line))
    }

    lemma CachedItem(list: seq<T>, line: uint32)
      requires itemsSegment.NoOverflow() && Caches(list)
      ensures ItemAt(line).0.Some? <==> line in itemsSegment.Lines()
      ensures ItemAt(line).0.Some? ==> line < |list| && ItemAt(line).0.value.content == list[line]
      ensures view.NoOverflow() ==> (ItemAt(line).1 <==> line in view.Lines())
    {
    }

    function ComputeOverlap(segment: Segment): (CacheSegmentState, uint32)
      reads this
    {
      var (shape, size) := segment.Intersection(itemsSegment);
      var state := match shape
                   case Disjoint => EmptyCache
                   case Equal => Cached
                   case IncludedInOther => Cached
                   case TopRemains => CachedTopEmptyBottom
                   case BottomRemains => CachedBottomEmptyTop
                   case CenterRemains => CachedCenter;
      (if size == 0 then EmptyCache else state, size)
    }

    method SetView(line: uint32, count: uint32, total: uint32) returns (state: CacheSegmentState, cached: uint32)
      requires Valid()
      modifies this`view
      ensures Valid() && view == Segment(Min(line, total - Min(count, total)), Min(count, total))
      ensures cached == |view.Lines() * itemsSegment.Lines()|
      ensures view.count > 0 ==> IsOverlap(state, view, itemsSegment)
      ensures state == EmptyCache <==> view.Lines() !! itemsSegment.Lines()
    {
      hide Segment.Lines, Segment.Beyond, Segment.Intersection, Viewport.ComputeOverlap, Owned, OwnedBy, IsOverlap;
      var start := line;
      if start > UINT_MAX - count {
        start := UINT_MAX - count;
      }
      if start + count <= total {
        view := Segment(start, count);
      } else if count <= total {
        view := Segment(total - count, count);
      } else {
        view := Segment(0, total);
      }
      var overlap := ComputeOverlap(view);
      state, cached := overlap.0, overlap.1;
      OverlapShown(view);
    }

    lemma OverlapShown(segment: Segment)
      requires segment.NoOverflow() && itemsSegment.NoOverflow()
      ensures var (state, size) := ComputeOverlap(segment);
              && size == |segment.Lines() * itemsSegment.Lines()|
              && (segment.count > 0 ==> IsOverlap(state, segment, itemsSegment))
              && (state == EmptyCache <==> segment.Lines() !! itemsSegment.Lines())
    {
      hide Segment.Lines, Segment.Beyond, Segment.Intersection, Viewport.ComputeOverlap;
      OverlapIsExact(segment);
    }

    lemma OverlapIsExact(segment: Segment)
      requires segment.NoOverflow() && itemsSegment.NoOverflow()
      ensures var (state, size) := ComputeOverlap(segment);
              && size == |segment.Lines() * itemsSegment.Lines()|
              && (segment.count > 0 ==>
                    var first := segment.line in itemsSegment.Lines();
                    var last := segment.line + segment.count - 1 in itemsSegment.Lines();
                    && (state == Cached <==> segment.Lines() <= itemsSegment.Lines())
                    && (state == CachedTopEmptyBottom <==> first && !last)
                    && (state == CachedBottomEmptyTop <==> last && !first)
                    && (state == CachedCenter <==> !first && !last && size > 0))
              && (state == EmptyCache <==> segment.Lines() !! itemsSegment.Lines())
    {
      hide Segment.Lines, Segment.Beyond;
      IntersectionSize(segment, itemsSegment);
      if segment.count > 0 && itemsSegment.count > 0 {
        IntersectionShape(segment, itemsSegment);
      } else if segment.count > 0 {
        assert segment.line in segment.Lines();
      }
    }

    // Forget the cached items, keep the view.
    method ClearForLine(line: uint32)
      requires Valid()
      modifies this`itemsSegment, items
      ensures Valid() && items.items == [] && itemsSegment == Segment(line, 0)
    {
      hide Owned, OwnedBy;
      items.Clear();
      itemsSegment := Segment(line, 0);
    }

    function GetMissingSegment(): Segment
      reads this
    {
      MissingFrom(view, itemsSegment)
    }

    // Move the cached items to where they belong according to the view.
    method PrepareUpdate() returns (gap: nat)
      requires Valid() && itemsSegment.count <= |items.items|
      modifies items
      ensures Valid() && items.received == old(items.received)
      ensures (items.items, gap) == Rearranged(old(items.items), view, itemsSegment)
    {
      hide Owned, OwnedBy, Segment.Intersection, Segment.Lines;
      IntersectionBounds(view, itemsSegment);
      var (shape, size) := view.Intersection(itemsSegment);
      gap := 0;
      match shape {
        case Disjoint => items.Clear();
        case CenterRemains => items.Clear();
        case Equal =>
        case IncludedInOther =>
        case TopRemains =>
          items.ShiftUp(|items.items| - size);
          gap := size;
        case BottomRemains => items.ShiftDown(|items.items| - size);
      }
    }

    // new_item_fn()
    method NewItem(content: T) returns (item: Item<T>)
      requires Valid()
      modifies this`constructed
      ensures Valid() && item.content == content && item !in items.received
      ensures item.serial < constructed == old(constructed) + 1
    {
      item := Item(constructed, content);
      constructed := constructed + 1;
    }

    method PutItem(replaceMode: bool, index: nat, content: T)
      requires Valid() && (replaceMode ==> index < |items.items|)
      modifies this`constructed, items
      ensures Valid()
      ensures if replaceMode then
                && |items.items| == |old(items.items)| && ContentAt(items.items, index, content)
                && forall k :: 0 <= k < |items.items| && k != index ==> items.items[k] == old(items.items)[k]
              else
                && |items.items| == |old(items.items)| + 1 && ContentAt(items.items, |old(items.items)|, content)
                && items.items[..|old(items.items)|] == old(items.items)
    {
      hide Owned, OwnedBy;
      var item := NewItem(content);
      if replaceMode {
        items.Replace(index, item);
      } else {
        var _ := items.Append(item);
      }
    }

    // Put the items received from the list broker into the cache.
    method UpdateCacheRegionSimple(gap: nat, data: seq<T>)
      requires Valid()
      requires data != [] && items.items != [] ==> gap + |data| <= |items.items|
      modifies this`itemsSegment, this`constructed, items
      ensures Valid()
      ensures itemsSegment == if data == [] then old(itemsSegment) else view
      ensures Written(old(items.items), items.items, gap, data)
    {
      hide Owned, OwnedBy;
      if data == [] {
        return;
      }
      var replaceMode := items.items != [];
      var i := 0;
      while i < |data|
        invariant i <= |data| && Valid() && itemsSegment == old(itemsSegment) && view == old(view)
        invariant if replaceMode then |items.items| == |old(items.items)| else |items.items| == i
        invariant forall k :: 0 <= k < i ==> ContentAt(items.items, if replaceMode then gap + k else k, data[k])
        invariant replaceMode ==>
                    forall k :: 0 <= k < |items.items| && !(gap <= k < gap + i) ==>
                             items.items[k] == old(items.items)[k]
      {
        PutItem(replaceMode, gap + i, data[i]);
        i := i + 1;
      }
      itemsSegment := view;
    }
  }

  ghost predicate ContentAt<T>(slots: seq<Slot<T>>, index: nat, content: T) {
    index < |slots| && slots[index].Some? && slots[index].value.content == content
  }

  // The part of the list which is in view, or would be, as far as the cache size allows
  ghost predicate ViewFits<T>(view: Segment, cacheSize: nat, list: seq<T>) {
    view.NoOverflow() && view.count == Min(cacheSize, |list|) && view.line + view.count <= |list|
  }

  // The slots after prepare_update(), and the index of the first one to be filled in
  function Rearranged<T>(slots: seq<Slot<T>>, view: Segment, segment: Segment): (seq<Slot<T>>, nat)
    requires view.Intersection(segment).1 <= |slots|
  {
    var (shape, size) := view.Intersection(segment);
    match shape
    case Disjoint => ([], 0)
    case CenterRemains => ([], 0)
    case Equal => (slots, 0)
    case IncludedInOther => (slots, 0)
    case TopRemains => (slots[|slots| - size..] + Nulls(|slots| - size), size)
    case BottomRemains => (Nulls(|slots| - size) + slots[..size], 0)
  }

  lemma IntersectionBounds(view: Segment, segment: Segment)
    requires view.NoOverflow() && segment.NoOverflow()
    ensures view.Intersection(segment).1 <= segment.count
  {
    hide Segment.Lines, Segment.Beyond;
  }

  // `data` has been written over the slots at index `gap`, or appended if there have been none.
  ghost predicate Written<T>(before: seq<Slot<T>>, after: seq<Slot<T>>, gap: nat, data: seq<T>) {
    if before == [] then
      |after| == |data| && forall k :: 0 <= k < |data| ==> ContentAt(after, k, data[k])
    else
      && |after| == |before|
      && (forall k :: 0 <= k < |after| && !(gap <= k < gap + |data|) ==> after[k] == before[k])
      && (forall k :: 0 <= k < |data| ==> ContentAt(after, gap + k, data[k]))
  }

  // The first slots hold the items of `list` in the given segment, and the others are empty.
  ghost predicate Covers<T>(slots: seq<Slot<T>>, list: seq<T>, segment: Segment) {
    && |slots| >= segment.count
    && (forall k :: 0 <= k < segment.count ==>
          segment.line + k < |list| && slots[k].Some? && slots[k].value.content == list[segment.line + k])
    && (forall k :: segment.count <= k < |slots| ==> slots[k] == None)
  }

  // The slots hold the items of `list` in the given segment, and there are no other slots.
  ghost predicate Holds<T>(slots: seq<Slot<T>>, list: seq<T>, segment: Segment) {
    |slots| == segment.count && Covers(slots, list, segment)
  }

  // The items to be fetched for a view of the usual size
  lemma MissingInList<T>(view: Segment, segment: Segment, list: seq<T>)
    requires view.NoOverflow() && segment.NoOverflow() && view.line + view.count <= |list|
    ensures var missing := MissingFrom(view, segment);
            missing.line + missing.count <= |list|
            && view.line <= missing.line && missing.line + missing.count <= view.line + view.count
  {
    hide Segment.Lines, Segment.Beyond, Unsigned;
  }

  // There is room for the missing items where they are put.
  lemma GapFits<T>(slots: seq<Slot<T>>, view: Segment, segment: Segment)
    requires view.NoOverflow() && segment.NoOverflow() && |slots| == segment.count
    requires segment.count > 0 ==> segment.count == view.count
    ensures view.Intersection(segment).1 <= |slots|
    ensures var (mid, gap) := Rearranged(slots, view, segment);
            mid != [] ==> gap + MissingFrom(view, segment).count <= |mid|
  {
    hide Segment.Lines, Segment.Beyond, Unsigned;
  }

  // Where a view of the usual size meets the cached segment
  lemma ShapeFacts(view: Segment, segment: Segment)
    requires view.NoOverflow() && segment.NoOverflow() && view.count > 0
    requires segment.count > 0 ==> segment.count == view.count
    ensures var ((shape, size), missing) := (view.Intersection(segment), MissingFrom(view, segment));
            && missing.line + missing.count <= view.line + view.count
            && (shape == Disjoint || shape == CenterRemains ==> missing == view)
            && (shape == TopRemains ==>
                  && size < view.count == segment.count && segment.line + segment.count == view.line + size
                  && missing == Segment(view.line + size, view.count - size))
            && (shape == BottomRemains ==>
                  && size < view.count == segment.count && segment.line == view.line + (view.count - size)
                  && missing == Segment(view.line, view.count - size))
            && (shape == Equal || shape == IncludedInOther ==> missing.count == 0)
  {
    hide Segment.Lines, Segment.Beyond, Unsigned;
  }

  // The upper part of the view has been cached, and the lower part is filled in.
  lemma FilledBelow<T>(slots: seq<Slot<T>>, after: seq<Slot<T>>, list: seq<T>, data: seq<T>, line: nat, old': nat,
                       size: nat)
    requires size < |slots| && line + |slots| <= |list| && old' + |slots| == line + size
    requires Holds(slots, list, Segment(Unsigned(old'), Unsigned(|slots|)))
    requires old' <= UINT_MAX && |slots| <= UINT_MAX && line <= UINT_MAX
    requires data == list[line + size..line + |slots|]
    requires Written(slots[|slots| - size..] + Nulls(|slots| - size), after, size, data)
    ensures Holds(after, list, Segment(Unsigned(line), Unsigned(|slots|)))
  {
    hide Unsigned;
    forall k | 0 <= k < |slots|
      ensures after[k].Some? && after[k].value.content == list[line + k]
    {
      if size <= k {
        assert ContentAt(after, size + (k - size), data[k - size]);
      } else {
        assert after[k] == slots[|slots| - size + k];
      }
    }
  }

  // The lower part of the view has been cached, and the upper part is filled in.
  lemma FilledAbove<T>(slots: seq<Slot<T>>, after: seq<Slot<T>>, list: seq<T>, data: seq<T>, line: nat, old': nat,
                       size: nat)
    requires size < |slots| && line + |slots| <= |list| && old' == line + (|slots| - size)
    requires Holds(slots, list, Segment(Unsigned(old'), Unsigned(|slots|)))
    requires old' <= UINT_MAX && |slots| <= UINT_MAX && line <= UINT_MAX
    requires data == list[line..line + (|slots| - size)]
    requires Written(Nulls(|slots| - size) + slots[..size], after, 0, data)
    ensures Holds(after, list, Segment(Unsigned(line), Unsigned(|slots|)))
  {
    hide Unsigned;
    forall k | 0 <= k < |slots|
      ensures after[k].Some? && after[k].value.content == list[line + k]
    {
      if k < |slots| - size {
        assert ContentAt(after, 0 + k, data[k]);
      } else {
        assert after[k] == slots[k - (|slots| - size)];
      }
    }
  }

  lemma HoldsSize<T>(slots: seq<Slot<T>>, list: seq<T>, segment: Segment)
    requires Holds(slots, list, segment)
    ensures |slots| == segment.count
  {
  }

  // After rearranging the cached items and filling in the missing ones, the slots hold the view.
  lemma RefillHolds<T>(slots: seq<Slot<T>>, view: Segment, segment: Segment, list: seq<T>, data: seq<T>,
                       after: seq<Slot<T>>)
    requires view.NoOverflow() && segment.NoOverflow() && view.line + view.count <= |list|
    requires Holds(slots, list, segment) && (segment.count > 0 ==> segment.count == view.count)
    requires view.Intersection(segment).1 <= |slots|
    requires var missing := MissingFrom(view, segment);
             && missing.line + missing.count <= |list| && data == list[missing.line..missing.line + missing.count]
             && missing.count > 0
    requires var (mid, gap) := Rearranged(slots, view, segment); Written(mid, after, gap, data)
    ensures Holds(after, list, view)
  {
    hide Segment.Lines, Segment.Beyond, Unsigned, Segment.Intersection, MissingFrom, Holds, Written, ContentAt;
    var (shape, size) := view.Intersection(segment);
    MissingNonEmpty(view, segment);
    ShapeFacts(view, segment);
    HoldsSize(slots, list, segment);
    if shape.TopRemains? {
      FilledBelow(slots, after, list, data, view.line, segment.line, size);
    } else if shape.BottomRemains? {
      FilledAbove(slots, after, list, data, view.line, segment.line, size);
    } else {
      FilledAll(after, list, data, view, Rearranged(slots, view, segment).1);
    }
  }

  // Nothing in view has been cached, and everything is filled in.
  lemma FilledAll<T>(after: seq<Slot<T>>, list: seq<T>, data: seq<T>, view: Segment, gap: nat)
    requires view.line + view.count <= |list| && data == list[view.line..view.line + view.count]
    requires Written([], after, gap, data)
    ensures Holds(after, list, view)
  {
    forall k | 0 <= k < view.count
      ensures k < |after| && after[k].Some? && after[k].value.content == list[view.line + k]
    {
      assert ContentAt(after, k, data[k]);
    }
  }

  lemma MissingNonEmpty(view: Segment, segment: Segment)
    requires view.NoOverflow() && segment.NoOverflow() && MissingFrom(view, segment).count > 0
    ensures view.count > 0
  {
    hide Segment.Lines, Segment.Beyond, Unsigned;
  }

  // item_at()
  function SlotAt<T>(slots: seq<Slot<T>>, segment: Segment, line: nat): Slot<T> {
    if segment.line <= line < segment.line + segment.count && line - segment.line < |slots| then
      slots[line - segment.line]
    else None
  }

  // Each item in view is the one in the list.
  ghost predicate ShowsView<T>(slots: seq<Slot<T>>, segment: Segment, list: seq<T>, view: Segment) {
    forall line: nat :: view.line <= line < view.line + view.count ==>
      line < |list| && SlotAt(slots, segment, line).Some? && SlotAt(slots, segment, line).value.content == list[line]
  }

  // Views for which a refill works, `n` being the number of slots: if the upper part of the view has been
  // cached, then there must not be any empty slots, and the view must not be larger than the vector; if the
  // lower part has been cached, then the view must be as large as the vector.
  predicate RefillWorks(n: nat, view: Segment, segment: Segment) {
    match view.Intersection(segment).0
    case TopRemains => n == segment.count && view.count <= n
    case BottomRemains => view.count == n
    case _ => true
  }

  // Views for which the items fetched fit into the vector
  predicate RefillFits(n: nat, view: Segment, segment: Segment) {
    var (shape, size) := view.Intersection(segment);
    match shape
    case TopRemains => view.count <= n
    case BottomRemains => view.count - size <= n
    case _ => true
  }

  // Otherwise, they run past its end.
  lemma RefillFitsIff<T>(slots: seq<Slot<T>>, view: Segment, segment: Segment)
    requires view.NoOverflow() && segment.NoOverflow() && segment.count <= |slots|
    ensures view.Intersection(segment).1 <= |slots|
    ensures var (mid, gap) := Rearranged(slots, view, segment);
            MissingFrom(view, segment).count == 0 || mid == [] || gap + MissingFrom(view, segment).count <= |mid| <==>
            RefillFits(|slots|, view, segment)
  {
    hide Segment.Lines, Segment.Beyond, Segment.Intersection, MissingFrom, Unsigned;
    IntersectionBounds(view, segment);
    var (shape, _) := view.Intersection(segment);
    if shape == TopRemains {
      TopShape(view, segment);
    } else if shape == BottomRemains {
      BottomShape(view, segment);
    } else {
      OtherShape(view, segment);
    }
  }

  lemma TopShape(view: Segment, segment: Segment)
    requires view.NoOverflow() && segment.NoOverflow() && view.Intersection(segment).0 == TopRemains
    ensures var size := view.Intersection(segment).1;
            && 0 < size < view.count && size <= segment.count && segment.line <= view.line
            && segment.line + segment.count == view.line + size
            && MissingFrom(view, segment) == Segment(view.line + size, view.count - size)
  {
    hide Segment.Lines;
  }

  lemma BottomShape(view: Segment, segment: Segment)
    requires view.NoOverflow() && segment.NoOverflow() && view.Intersection(segment).0 == BottomRemains
    ensures var size := view.Intersection(segment).1;
            && 0 < size < view.count && size <= segment.count && segment.line == view.line + (view.count - size)
            && MissingFrom(view, segment) == Segment(view.line, view.count - size)
  {
    hide Segment.Lines;
  }

  lemma OtherShape(view: Segment, segment: Segment)
    requires view.NoOverflow() && segment.NoOverflow()
    ensures var shape := view.Intersection(segment).0;
            shape == Equal || shape == IncludedInOther ==> MissingFrom(view, segment).count == 0
  {
    hide Segment.Lines, Segment.Beyond;
  }

  lemma RefillTop<T>(slots: seq<Slot<T>>, view: Segment, segment: Segment, list: seq<T>, data: seq<T>,
                     after: seq<Slot<T>>, size: nat)
    requires view.NoOverflow() && segment.NoOverflow() && view.line + view.count <= |list|
             && Covers(slots, list, segment)
    requires 0 < size < view.count && size <= segment.count && segment.line + segment.count == view.line + size
    requires data == list[view.line + size..view.line + view.count]
    requires Written(slots[|slots| - size..] + Nulls(|slots| - size), after, size, data)
    ensures view.count <= |slots|
    ensures if |slots| == segment.count then Covers(after, list, view) else !ShowsView(after, view, list, view)
  {
    hide Segment.Lines, Segment.Beyond, Segment.Intersection;
    var mid := slots[|slots| - size..] + Nulls(|slots| - size);
    assert ContentAt(after, size + (|data| - 1), data[|data| - 1]);
    if |slots| == segment.count {
      forall k | 0 <= k < view.count
        ensures after[k].Some? && after[k].value.content == list[view.line + k]
      {
        if k < size {
          assert after[k] == mid[k] == slots[|slots| - size + k];
        } else {
          assert ContentAt(after, size + (k - size), data[k - size]);
        }
      }
      forall k | view.count <= k < |after| ensures after[k] == None {
        assert after[k] == mid[k];
      }
    } else {
      assert after[size - 1] == mid[size - 1] == slots[|slots| - 1] == None;
      assert SlotAt(after, view, view.line + size - 1) == None;
    }
  }

  lemma RefillBottom<T>(slots: seq<Slot<T>>, view: Segment, segment: Segment, list: seq<T>, data: seq<T>,
                        after: seq<Slot<T>>, size: nat)
    requires view.NoOverflow() && segment.NoOverflow() && view.line + view.count <= |list|
             && Covers(slots, list, segment)
    requires 0 < size < view.count && size <= segment.count && segment.line == view.line + (view.count - size)
    requires data == list[view.line..view.line + (view.count - size)]
    requires Written(Nulls(|slots| - size) + slots[..size], after, 0, data)
    ensures if view.count == |slots| then Covers(after, list, view) else !ShowsView(after, view, list, view)
  {
    hide Segment.Lines, Segment.Beyond, Segment.Intersection;
    var mid := Nulls(|slots| - size) + slots[..size];
    assert |after| == |slots|;
    if view.count > |slots| {
      assert SlotAt(after, view, view.line + view.count - 1) == None;
    } else if view.count < |slots| {
      var k := view.count - size;
      assert after[k] == mid[k] == None;
      assert SlotAt(after, view, view.line + k) == None;
    } else {
      forall k | 0 <= k < view.count
        ensures after[k].Some? && after[k].value.content == list[view.line + k]
      {
        if k < view.count - size {
          assert ContentAt(after, 0 + k, data[k]);
        } else {
          assert after[k] == mid[k] == slots[k - (|slots| - size)];
        }
      }
    }
  }

  // What is covered is shown.
  lemma CoveredIsShown<T>(slots: seq<Slot<T>>, segment: Segment, list: seq<T>, view: Segment)
    requires Covers(slots, list, segment)
    requires segment.line <= view.line && view.line + view.count <= segment.line + segment.count
    ensures ShowsView(slots, segment, list, view)
  {
    forall line: nat | view.line <= line < view.line + view.count
      ensures line < |list| && SlotAt(slots, segment, line).Some?
              && SlotAt(slots, segment, line).value.content == list[line]
    {
      assert slots[line - segment.line].Some? && segment.line + (line - segment.line) == line;
    }
  }

  lemma RefillOther<T>(slots: seq<Slot<T>>, view: Segment, segment: Segment, list: seq<T>, data: seq<T>,
                       after: seq<Slot<T>>)
    requires view.NoOverflow() && segment.NoOverflow() && view.line + view.count <= |list|
             && Covers(slots, list, segment)
    requires view.Intersection(segment).0 != TopRemains && view.Intersection(segment).0 != BottomRemains
    requires view.Intersection(segment).1 <= |slots|
    requires var missing := MissingFrom(view, segment);
             && missing.line + missing.count <= |list| && data == list[missing.line..missing.line + missing.count]
    requires var (mid, gap) := Rearranged(slots, view, segment); Written(mid, after, gap, data)
    ensures ShowsView(after, if data == [] then segment else view, list, view)
    ensures view.count > 0 ==> Covers(after, list, if data == [] then segment else view)
  {
    hide Segment.Lines;
    var (shape, _) := view.Intersection(segment);
    if shape.Disjoint? || shape.CenterRemains? {
      FilledAll(after, list, data, view, Rearranged(slots, view, segment).1);
    } else {
      assert after == slots;
    }
  }

  // One refill: `data` is what is missing, and it has been put in the place made for it.
  ghost predicate IsRefill<T>(slots: seq<Slot<T>>, segment: Segment, view: Segment, list: seq<T>,
                              after: seq<Slot<T>>, segment': Segment) {
    var missing := MissingFrom(view, segment);
    && view.NoOverflow() && segment.NoOverflow() && view.line + view.count <= |list|
    && view.Intersection(segment).1 <= |slots| && missing.line + missing.count <= |list|
    && (var (mid, gap) := Rearranged(slots, view, segment);
        Written(mid, after, gap, list[missing.line..missing.line + missing.count]))
    && segment' == if missing.count == 0 then segment else view
  }

  // After a refill, all items in view are those in the list if and only if the refill works for such a view.
  // Then, there are only empty slots behind them, as before.
  lemma {:induction false} RefillAgreesIff<T>(slots: seq<Slot<T>>, segment: Segment, view: Segment, list: seq<T>,
                                              after: seq<Slot<T>>, segment': Segment)
    requires Covers(slots, list, segment) && IsRefill(slots, segment, view, list, after, segment')
    ensures ShowsView(after, segment', list, view) <==> RefillWorks(|slots|, view, segment)
    ensures RefillWorks(|slots|, view, segment) && view.count > 0 ==> Covers(after, list, segment')
  {
    hide Segment.Lines, Segment.Beyond, Segment.Intersection, Unsigned, MissingFrom, Written, ShowsView, Covers;
    var (shape, size) := view.Intersection(segment);
    var missing := MissingFrom(view, segment);
    var data := list[missing.line..missing.line + missing.count];
    CoversSize(slots, list, segment);
    if shape == TopRemains {
      TopShape(view, segment);
      RefillTop(slots, view, segment, list, data, after, size);
      if |slots| == segment.count {
        CoveredIsShown(after, view, list, view);
      }
    } else if shape == BottomRemains {
      BottomShape(view, segment);
      RefillBottom(slots, view, segment, list, data, after, size);
      if view.count == |slots| {
        CoveredIsShown(after, view, list, view);
      }
    } else {
      RefillOther(slots, view, segment, list, data, after);
    }
  }

  lemma CoversSize<T>(slots: seq<Slot<T>>, list: seq<T>, segment: Segment)
    requires Covers(slots, list, segment)
    ensures segment.count <= |slots|
  {
  }

  // The cache before each refill in a row, and after the last one
  datatype Cache<T> = Cache(slots: seq<Slot<T>>, segment: Segment)

  // As long as the refills work, for views of whatever size and place, all items in view are those in the list.
  lemma {:induction false} RefillRun<T>(caches: seq<Cache<T>>, views: seq<Segment>, list: seq<T>)
    requires |caches| == |views| + 1 && Covers(caches[0].slots, list, caches[0].segment)
    requires forall i :: 0 <= i < |views| ==>
               && views[i].count > 0 && RefillWorks(|caches[i].slots|, views[i], caches[i].segment)
               && IsRefill(caches[i].slots, caches[i].segment, views[i], list,
                           caches[i + 1].slots, caches[i + 1].segment)
    ensures Covers(caches[|views|].slots, list, caches[|views|].segment)
    ensures forall i :: 0 <= i < |views| ==> ShowsView(caches[i + 1].slots, caches[i + 1].segment, list, views[i])
  {
    hide Covers, ShowsView, IsRefill, RefillWorks;
    if views != [] {
      var n := |views| - 1;
      RefillRun(caches[..n + 1], views[..n], list);
      assert caches[..n + 1][n] == caches[n];
      RefillAgreesIff(caches[n].slots, caches[n].segment, views[n], list, caches[n + 1].slots, caches[n + 1].segment);
      forall i | 0 <= i < n ensures ShowsView(caches[i + 1].slots, caches[i + 1].segment, list, views[i]) {
        assert caches[..n + 1][i + 1] == caches[i + 1] && views[..n][i] == views[i];
      }
    }
  }

  // Lines 1 to 3 have been cached, and lines 0 and 1 are to be viewed: line 1 gets lost.
  lemma SmallerViewLosesLine(slots: seq<Slot<int>>, list: seq<int>, after: seq<Slot<int>>, segment': Segment)
    requires |list| == 4 && Holds(slots, list, Segment(1, 3))
    requires IsRefill(slots, Segment(1, 3), Segment(0, 2), list, after, segment')
    ensures segment' == Segment(0, 2) && SlotAt(after, segment', 1) == None
  {
    hide Segment.Lines;
    var (mid, gap) := Rearranged(slots, Segment(0, 2), Segment(1, 3));
    assert mid == Nulls(2) + slots[..1];
    assert mid[1] == None;
  }

  // Lines 0 to 3 have been cached, then lines 2 to 4 are viewed, and then lines 3 to 5.  The first refill works,
  // and leaves an empty slot behind; so the second one doesn't, although the two views have got the same size.
  lemma SecondRefillLosesLine(slots: seq<Slot<int>>, list: seq<int>, first: seq<Slot<int>>, second: seq<Slot<int>>)
    requires list == [10, 11, 12, 13, 14, 15] && Holds(slots, list, Segment(0, 4))
    requires IsRefill(slots, Segment(0, 4), Segment(2, 3), list, first, Segment(2, 3))
    requires IsRefill(first, Segment(2, 3), Segment(3, 3), list, second, Segment(3, 3))
    ensures ShowsView(first, Segment(2, 3), list, Segment(2, 3)) && |first| == 4
    ensures SlotAt(second, Segment(3, 3), 3).Some? && SlotAt(second, Segment(3, 3), 3).value.content == 14
    ensures SlotAt(second, Segment(3, 3), 4) == None
  {
    hide Segment.Lines, ShowsView;
    assert Segment(2, 3).Intersection(Segment(0, 4)) == (TopRemains, 2);
    assert Segment(3, 3).Intersection(Segment(2, 3)) == (TopRemains, 2);
    RefillAgreesIff(slots, Segment(0, 4), Segment(2, 3), list, first, Segment(2, 3));
    assert |first| == 4;
    var (mid, gap) := Rearranged(first, Segment(3, 3), Segment(2, 3));
    assert mid == first[2..] + Nulls(2) && mid[0] == first[2] && mid[1] == first[3] == None;
    assert second[0] == mid[0] && second[1] == mid[1];
  }

  // With nothing missing, everything stays as it is.
  lemma NothingToRefill<T>(slots: seq<Slot<T>>, view: Segment, segment: Segment, after: seq<Slot<T>>)
    requires view.NoOverflow() && segment.NoOverflow() && |slots| == segment.count
    requires segment.count > 0 ==> segment.count == view.count
    requires view.Intersection(segment).1 <= |slots| && MissingFrom(view, segment).count == 0
    requires Written(Rearranged(slots, view, segment).0, after, Rearranged(slots, view, segment).1, [])
    ensures after == slots
  {
    hide Segment.Lines, Segment.Beyond, Unsigned;
    if view.count > 0 {
      ShapeFacts(view, segment);
    }
  }

  // Views of the usual size are fine.
  lemma UsualSizeFits<T>(slots: seq<Slot<T>>, view: Segment, segment: Segment, list: seq<T>)
    requires view.NoOverflow() && segment.NoOverflow() && Holds(slots, list, segment)
    requires segment.count > 0 ==> segment.count == view.count
    ensures Covers(slots, list, segment) && RefillFits(|slots|, view, segment) && RefillWorks(|slots|, view, segment)
  {
    hide Segment.Lines, Segment.Beyond, Segment.Intersection;
    var (shape, _) := view.Intersection(segment);
    if shape == TopRemains {
      TopShape(view, segment);
    } else if shape == BottomRemains {
      BottomShape(view, segment);
    }
  }

  // update_viewport_cache(): one refill, for a view of any size for which the items fit into the vector
  method UpdateViewportCache<T>(vp: Viewport<T>, data: seq<T>, ghost list: seq<T>)
    requires vp.Valid() && Covers(vp.items.items, list, vp.itemsSegment) && vp.view.line + vp.view.count <= |list|
    requires RefillFits(|vp.items.items|, vp.view, vp.itemsSegment)
    requires var missing := vp.GetMissingSegment();
             missing.line + missing.count <= |list| && data == list[missing.line..missing.line + missing.count]
    modifies vp`itemsSegment, vp`constructed, vp.items
    ensures vp.Valid()
    ensures ShowsView(vp.items.items, vp.itemsSegment, list, vp.view) <==>
            RefillWorks(|old(vp.items.items)|, vp.view, old(vp.itemsSegment))
    ensures RefillWorks(|old(vp.items.items)|, vp.view, old(vp.itemsSegment)) && vp.view.count > 0 ==>
              Covers(vp.items.items, list, vp.itemsSegment)
    ensures IsRefill(old(vp.items.items), old(vp.itemsSegment), vp.view, list, vp.items.items, vp.itemsSegment)
    ensures old(vp.Caches(list)) && ViewFits(vp.view, vp.cacheSize, list) ==> vp.Caches(list)
    ensures vp.itemsSegment == if old(vp.GetMissingSegment().count) > 0 then vp.view else old(vp.itemsSegment)
  {
    hide Segment.Lines, Segment.Beyond, Segment.Intersection, Unsigned, Owned, OwnedBy, MissingFrom, Rearranged,
         Written, Covers, ShowsView, RefillWorks, RefillFits;
    ghost var slots, segment := vp.items.items, vp.itemsSegment;
    CoversSize(slots, list, segment);
    RefillFitsIff(slots, vp.view, segment);
    var gap := vp.PrepareUpdate();
    vp.UpdateCacheRegionSimple(gap, data);
    RefillAgreesIff(slots, segment, vp.view, list, vp.items.items, vp.itemsSegment);
    if old(vp.Caches(list)) && ViewFits(vp.view, vp.cacheSize, list) {
      GapFits(slots, vp.view, segment);
      if data != [] {
        RefillHolds(slots, vp.view, segment, list, data, vp.items.items);
      } else {
        NothingToRefill(slots, vp.view, segment, vp.items.items);
      }
    }
  }
}
