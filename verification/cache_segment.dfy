// List::Segment (src/cache_segment.hh): a range of lines, computed with in unsigned arithmetic.
module CacheSegment {
  import opened UInt

  datatype SegmentIntersection =
    | Disjoint | Equal | TopRemains | BottomRemains | CenterRemains | IncludedInOther

  // The numbers from `a` up to, but not including, `b`
  ghost function Interval(a: int, b: int): (r: set<int>)
    ensures forall n :: n in r <==> a <= n < b
    ensures |r| == if a <= b then b - a else 0
    decreases b - a
  {
    if a >= b then {} else Interval(a, b - 1) + {b - 1}
  }

  datatype Segment = Segment(line: uint32, count: uint32) {
    function Beyond(): (b: uint32)
      ensures b == (line + count) % 0x1_0000_0000 && (NoOverflow() ==> b == line + count)
    {
      (line + count) % (UINT_MAX + 1)
    }

    predicate ContainsLine(n: nat) {
      n >= line && n < Beyond()
    }

    predicate NoOverflow() {
      line + count <= UINT_MAX
    }

    ghost function Lines(): (r: set<int>)
      ensures forall n :: n in r <==> line <= n < line + count
      ensures |r| == count
    {
      Interval(line, line + count)
    }

    // The shape of the intersection from the point of view of this segment, and its size
    function Intersection(other: Segment): (SegmentIntersection, uint32) {
      if count == 0 then
        if other.count == 0 then (if line == other.line then Equal else Disjoint, 0)
        else (if other.ContainsLine(line) then IncludedInOther else Disjoint, 0)
      else if other.count == 0 then
        (if ContainsLine(other.line) then CenterRemains else Disjoint, 0)
      else if line == other.line then
        if count < other.count then (IncludedInOther, count)
        else if count > other.count then (TopRemains, other.count)
        else (Equal, count)
      else if line < other.line then
        if Beyond() <= other.line then (Disjoint, 0)
        else if Beyond() <= other.Beyond() then (BottomRemains, Beyond() - other.line)
        else (CenterRemains, other.count)
      else
        if other.Beyond() <= line then (Disjoint, 0)
        else if other.Beyond() < Beyond() then (TopRemains, other.Beyond() - line)
        else (IncludedInOther, count)
    }
  }

  function Max(a: int, b: int): int {
    if a <= b then b else a
  }

  // The size is the number of lines the two segments have in common.
  lemma IntersectionSize(s: Segment, other: Segment)
    requires s.NoOverflow() && other.NoOverflow()
    ensures s.Intersection(other).1 == |s.Lines() * other.Lines()|
  {
    hide Segment.Lines, Segment.Beyond, Interval;
    var lo := Max(s.line, other.line);
    var hi := Max(lo, Min(s.line + s.count, other.line + other.count));
    assert s.Lines() * other.Lines() == Interval(lo, hi);
  }

  // The shape tells whether the first and the last line of a segment are in the other one.
  lemma IntersectionShape(s: Segment, other: Segment)
    requires s.NoOverflow() && other.NoOverflow() && s.count > 0 && other.count > 0
    ensures var shape := s.Intersection(other).0;
            var first, last := s.line in other.Lines(), s.line + s.count - 1 in other.Lines();
            && (shape == Disjoint <==> s.Lines() !! other.Lines())
            && (shape == Equal <==> s.Lines() == other.Lines())
            && (shape == IncludedInOther <==> s.Lines() < other.Lines())
            && (shape == TopRemains <==> first && !last)
            && (shape == BottomRemains <==> !first && last)
            && (shape == CenterRemains <==> !first && !last && other.Lines() < s.Lines())
  {
    hide Interval, Segment.Lines, Segment.Beyond;
    assert other.line in other.Lines() && other.line + other.count - 1 in other.Lines();
    assert s.line in s.Lines() && s.line + s.count - 1 in s.Lines();
    assert s.Lines() == other.Lines() ==> s.line == other.line && s.count == other.count by {
      if s.Lines() == other.Lines() {
        assert other.line in s.Lines() && s.line in other.Lines();
        assert s.line + s.count - 1 in other.Lines() && other.line + other.count - 1 in s.Lines();
      }
    }
  }

  // A segment without any lines has got a place nonetheless.
  lemma IntersectionOfEmpty(s: Segment, other: Segment)
    requires s.NoOverflow() && other.NoOverflow() && (s.count == 0 || other.count == 0)
    ensures s.Intersection(other).1 == 0
    ensures s.Intersection(other).0 ==
            if s.count == 0 && other.count == 0 && s.line == other.line then Equal
            else if s.count == 0 && s.line in other.Lines() then IncludedInOther
            else if other.count == 0 && other.line in s.Lines() then CenterRemains
            else Disjoint
  {
  }

  function Unsigned(n: int): (u: uint32)
    ensures 0 <= n <= UINT_MAX ==> u == n
  {
    n % (UINT_MAX + 1)
  }

  // What is missing from the segment `view` if the lines in `items` are there already
  // (get_missing_segment())
  function MissingFrom(view: Segment, items: Segment): Segment {
    var (shape, size) := view.Intersection(items);
    match shape
    case Disjoint => view
    case CenterRemains => view
    case Equal => Segment(view.line, 0)
    case IncludedInOther => Segment(view.line, 0)
    case TopRemains => Segment(Unsigned(view.line + size), Unsigned(view.count - size))
    case BottomRemains => Segment(view.line, Unsigned(view.count - size))
  }

  // Except when there are lines in the center only, exactly the missing lines are computed.
  lemma MissingIsExact(view: Segment, items: Segment)
    requires view.NoOverflow() && items.NoOverflow()
    ensures MissingFrom(view, items).NoOverflow()
    ensures MissingFrom(view, items).Lines() == view.Lines() - items.Lines() <==>
            !(view.Intersection(items).0 == CenterRemains && items.count > 0)
  {
    hide Interval, Segment.Lines, Segment.Beyond, Unsigned;
    var missing := MissingFrom(view, items);
    match view.Intersection(items).0
    case CenterRemains =>
      if items.count > 0 {
        assert items.line in view.Lines() && items.line in items.Lines();
      }
    case _ =>
      assert forall n :: n in missing.Lines() <==> n in view.Lines() && n !in items.Lines();
  }
}
