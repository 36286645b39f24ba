// Search::binary_search_utf8() and its two-boundary binary search, one character of the query
// at a time (src/search_algo.cc).
module SearchAlgo {
  import opened UInt
  import opened SortedTexts

  datatype Result =
    | InternalFailure | Searching | CheckingBoundary | FoundMatch | FoundApproximate
    | Unsorted      // UnsortedException has been thrown
    | AssertionFailed       // the assertion in ComparedString::get_char_at() has failed

  // A list of case-folded texts.  Some of its items cannot be retrieved.
  datatype TextList = TextList(texts: seq<Text>, unreadable: set<nat>)

  // While the top-most boundary is searched in the `n + 1` lines from `top` on, a text is probed which ends
  // at the given depth.  The distance between `top` and the line probed is cut in half as long as probing
  // hits lines not below the boundary.
  ghost predicate HitsShort(list: TextList, depth: nat, key: nat, top: nat, n: nat)
    requires top + n < |list.texts|
    decreases n
  {
    var p := top + n / 2;
    p !in list.unreadable &&
    (|list.texts[p]| == depth ||
     (n >= 2 && CharAt(list.texts[p], depth) >= key && HitsShort(list, depth, key, top, n / 2)))
  }

  ghost predicate AllReadable(list: TextList, lines: seq<nat>) {
    forall i :: i in lines ==> i < |list.texts| && i !in list.unreadable
  }

  // The last line could not be read, the others could.
  ghost predicate FailsOnLast(list: TextList, lines: seq<nat>) {
    && lines != [] && AllReadable(list, lines[..|lines| - 1])
    && lines[|lines| - 1] < |list.texts| && lines[|lines| - 1] in list.unreadable
  }

  // What is known about the lines looked at: all of them could be read unless the search has failed.
  ghost predicate Probed(list: TextList, before: seq<nat>, lines: seq<nat>, failed: bool) {
    before <= lines && if failed then FailsOnLast(list, lines) else AllReadable(list, lines)
  }

  lemma ProbedNext(list: TextList, before: seq<nat>, lines: seq<nat>, line: nat)
    requires Probed(list, before, lines, false) && line < |list.texts|
    ensures Probed(list, before, lines + [line], line in list.unreadable)
  {
    assert (lines + [line])[..|lines|] == lines;
  }

  lemma BeforeProbing(list: TextList, before: seq<nat>)
    requires AllReadable(list, before)
    ensures Probed(list, before, before, false)
  {
  }

  class Partition {
    var top: nat
    var bottom: nat
    var center: nat

    constructor ()
      ensures top == UINT_MAX && bottom == 0 && center == 0
    {
      top, bottom, center := UINT_MAX, 0, 0;
    }

    predicate IsUnique()
      reads this
    {
      top == bottom
    }

    predicate IsEmpty()
      reads this
    {
      top > bottom
    }

    function Size(): nat
      reads this
      requires top <= bottom
    {
      bottom - top + 1
    }

    function ComputeCenter(): nat
      reads this
      requires top <= bottom
    {
      top + (bottom - top) / 2
    }

    // The center is inside of the partition.  It is its middle except in a partition of two,
    // which is searched line by line.
    ghost predicate Valid()
      reads this
    {
      top <= center <= bottom && (Size() != 2 ==> center == ComputeCenter())
    }

    method StepCenterDown()
      requires center < bottom
      modifies this`center
      ensures center == old(center) + 1
    {
      center := center + 1;
    }

    method UpdateCenter() returns (r: Result)
      requires top <= bottom
      modifies this`center
      ensures center == ComputeCenter()
      ensures r == if top == bottom then CheckingBoundary else Searching
    {
      if !IsUnique() {
        center := ComputeCenter();
        return Searching;
      } else {
        center := top;
        return CheckingBoundary;
      }
    }

    method PickTopHalf() returns (r: Result)
      requires top <= center
      modifies this
      ensures top == old(top) && bottom == old(center) && center == ComputeCenter()
      ensures r == if top == bottom then CheckingBoundary else Searching
    {
      bottom := center;
      r := UpdateCenter();
    }

    method PickBottomHalf() returns (r: Result)
      requires center <= bottom
      modifies this
      ensures top == old(center) && bottom == old(bottom) && center == ComputeCenter()
      ensures r == if top == bottom then CheckingBoundary else Searching
    {
      top := center;
      r := UpdateCenter();
    }

    method LockAtCenter()
      modifies this
      ensures top == bottom == center == old(center)
    {
      top := center;
      bottom := center;
    }
  }

  class BSearchState {
    const list: TextList
    const upper: Partition
    const lower: Partition
    var allTop: nat
    var allBottom: nat
    var bottomCandidate: nat
    var key: nat
    var depth: int

    constructor (list: TextList)
      ensures this.list == list && fresh(upper) && fresh(lower) && upper != lower
      ensures depth == -1
      ensures |list.texts| > 0 ==> allTop == 0 && allBottom == |list.texts| - 1
    {
      this.list := list;
      upper := new Partition();
      lower := new Partition();
      allTop := if |list.texts| > 0 then 0 else UINT_MAX;
      allBottom := if |list.texts| > 0 then |list.texts| - 1 else 0;
      bottomCandidate := UINT_MAX;
      key := 0;
      depth := -1;
    }

    // ---------------------------------------------------------------- specification

    function Char(i: nat): int
      reads this`depth
    {
      if i < |list.texts| && depth >= 0 then CharAt(list.texts[i], depth) else -1
    }

    // The characters at the current depth are sorted inside of [allTop, allBottom].
    ghost predicate Ordered()
      reads this
    {
      && depth >= 0 && allTop <= allBottom < |list.texts| <= UINT_MAX
      && forall i, j :: allTop <= i <= j <= allBottom ==>
           CharAt(list.texts[i], depth) <= CharAt(list.texts[j], depth)
    }

    ghost predicate First(i: nat)
      reads this
      requires depth >= 0
    {
      IsFirstNotBelow(list.texts, depth, allTop, allBottom, key, i)
    }

    ghost predicate Last(i: nat)
      reads this
      requires depth >= 0
    {
      IsLastNotAbove(list.texts, depth, allTop, allBottom, key, i)
    }

    // The top-most boundary `g` has not been lost.
    ghost predicate UpperBrackets(g: nat)
      reads this, upper
    {
      && Ordered() && upper.Valid() && First(g)
      && allTop <= upper.top <= g <= upper.bottom <= allBottom
      && (upper.Size() == 2 && upper.center == upper.bottom ==> g == upper.bottom)
    }

    // The bottom-most boundary has not been lost, wherever it is.
    ghost predicate LowerBrackets()
      reads this, lower
    {
      && Ordered() && lower.Valid() && lower.center == lower.ComputeCenter()
      && allTop <= lower.top <= lower.bottom <= allBottom
      && forall h: nat :: Last(h) ==> lower.top <= h <= lower.bottom
    }

    // The two partitions are the same, or the lower one is behind the upper one already.
    ghost predicate Coupled()
      reads this, upper, lower
    {
      upper.Valid() && upper.Size() >= 3 ==>
        || (upper.top == lower.top && upper.bottom == lower.bottom && upper.center == lower.center)
        || (upper.bottom <= lower.top && Char(lower.top) <= key)
    }

    // The bottom-most boundary `h` has not been lost while it is searched for.
    ghost predicate BottomBrackets(h: nat)
      reads this, lower
    {
      && Ordered() && lower.Valid() && Last(h) && Char(h) == key
      && allTop <= lower.top <= h <= lower.bottom <= allBottom
      && (lower.Size() == 2 && lower.center == lower.bottom && bottomCandidate == UINT_MAX ==> h == lower.bottom)
      && (bottomCandidate != UINT_MAX ==>
            lower.Size() == 2 && lower.center == lower.bottom && bottomCandidate == lower.top
            && Char(lower.top) == key)
    }

    ghost predicate TopSearch(g: nat)
      reads this, upper, lower
    {
      UpperBrackets(g) && LowerBrackets() && Coupled() && bottomCandidate == UINT_MAX
    }

    ghost predicate InList()
      reads this, upper, lower
    {
      && upper != lower && depth >= 0 && upper.Valid() && lower.Valid()
      && upper.bottom < |list.texts| && lower.bottom < |list.texts|
    }

    // No line below the top-most boundary has been probed so far.
    ghost predicate NothingLow()
      reads this, upper
    {
      upper.top == allTop <= upper.bottom && upper.center == upper.ComputeCenter()
    }

    // From now on, no text is probed which ends at the current depth.
    ghost predicate NoShortAhead()
      reads this, upper, lower
    {
      Char(upper.top) >= 0 && Char(lower.top) >= 0
    }

    function Picked(topMost: bool): Partition {
      if topMost then upper else lower
    }

    // What the search for the top-most boundary achieves in a step
    ghost predicate TopStep(g: nat, r: Result, size: nat, left: int)
      reads this, upper, lower
    {
      match r
      case FoundMatch => upper.Valid() && upper.top == upper.bottom == g && Char(g) == key && LowerBrackets()
                         && bottomCandidate == UINT_MAX
      case FoundApproximate => upper.top == upper.bottom == g && Char(g) != key && Char(g) >= 0
      case Searching => TopSearch(g) && IsNarrower(upper, size, left)
      case CheckingBoundary => TopSearch(g) && IsNarrower(upper, size, left)
      case _ => false
    }

    ghost predicate BottomStep(h: nat, r: Result, size: nat, left: int)
      reads this, lower
    {
      match r
      case FoundMatch => lower.top == lower.bottom == h
      case Searching => BottomBrackets(h) && IsNarrower(lower, size, left)
      case _ => false
    }

    // A partition has become smaller, or there is less of it left to be searched line by line.
    ghost predicate IsNarrower(p: Partition, size: nat, left: int)
      reads p
    {
      p.Valid() && (p.Size() < size || (p.Size() == size && p.bottom - p.center < left))
    }

    // ---------------------------------------------------------------- bisection

    method BoundaryInPair(topMost: bool, ch: nat) returns (r: Result)
      requires InList() && Picked(topMost).Size() == 2
      requires ch == Char(Picked(topMost).center)
      modifies this`bottomCandidate, Picked(topMost)
      ensures topMost ==> upper.top == old(upper.center)
      ensures !topMost ==> forall h :: old(BottomBrackets(h)) ==> lower.top >= old(lower.top)
      ensures topMost ==> bottomCandidate == old(bottomCandidate)
      ensures topMost ==> forall g :: old(TopSearch(g)) ==> TopStep(g, r, 2, old(upper.bottom - upper.center))
      ensures !topMost ==> forall h :: old(BottomBrackets(h)) ==> BottomStep(h, r, 2, old(lower.bottom - lower.center))
    {
      var p := Picked(topMost);
      if key == ch {
        if topMost || p.center >= p.bottom {
          p.LockAtCenter();
          return FoundMatch;
        }
        if !topMost {
          bottomCandidate := p.center;
        }
        p.StepCenterDown();
        return Searching;
      }
      if key > ch {
        if p.center < p.bottom {
          p.StepCenterDown();
          return Searching;
        } else {
          p.LockAtCenter();
          return CheckingBoundary;
        }
      }
      if topMost {
        p.LockAtCenter();
        return FoundApproximate;
      } else if bottomCandidate != UINT_MAX {
        p.center := bottomCandidate;
        p.LockAtCenter();
        return FoundMatch;
      }
      return Unsorted;
    }

    // While the top-most boundary is searched for, the lower partition is bisected as well.  It
    // is bisected at its own center, which is fine because the partitions are coupled.
    method NarrowLower(ch: nat)
      requires InList() && upper.Size() >= 3 && ch == Char(upper.center)
      modifies lower
      ensures InList()
      ensures forall g :: old(TopSearch(g)) ==>
                && LowerBrackets()
                && (ch == key ==> lower.top >= upper.center && Char(lower.top) <= key)
                && (old(lower.top) < upper.center ==>
                      if ch <= key then lower.top == upper.center && lower.bottom == upper.bottom
                      else lower.top == upper.top && lower.bottom == upper.center)
                && (old(lower.top) >= upper.center ==> ch <= key && lower.top == old(lower.top))
    {
      if ch <= key {
        if lower.top < upper.center {
          var _ := lower.PickBottomHalf();
        }
      } else if lower.bottom > upper.center {
        var _ := lower.PickTopHalf();
      }
    }

    method BisectUpper(ch: nat) returns (r: Result)
      requires InList() && upper.Size() >= 3 && ch == Char(upper.center)
      modifies upper, lower
      ensures forall g :: old(TopSearch(g)) ==>
                lower.top >= old(lower.top) && (key > ch ==> lower.top >= old(upper.center))
      ensures r.Searching? || r.CheckingBoundary?
      ensures upper.top == (if key <= ch then old(upper.top) else old(upper.center))
      ensures key <= ch ==> upper.bottom == old(upper.center) && upper.center == upper.ComputeCenter()
      ensures forall g :: old(TopSearch(g)) ==> TopStep(g, r, old(upper.Size()), old(upper.bottom - upper.center))
    {
      // the test for `key < ch` in the other branch of the original never holds
      if key <= ch {
        r := BisectUpperToTop(ch);
      } else {
        r := BisectUpperToBottom(ch);
      }
    }

    method BisectUpperToTop(ch: nat) returns (r: Result)
      requires InList() && upper.Size() >= 3 && ch == Char(upper.center) && key <= ch
      modifies upper, lower
      ensures forall g :: old(TopSearch(g)) ==> lower.top >= old(lower.top)
      ensures r.Searching? || r.CheckingBoundary?
      ensures upper.top == old(upper.top) && upper.bottom == old(upper.center) && upper.center == upper.ComputeCenter()
      ensures forall g :: old(TopSearch(g)) ==> TopStep(g, r, old(upper.Size()), old(upper.bottom - upper.center))
    {
      hide BSearchState.Last, IsLastNotAbove;
      NarrowLower(ch);
      r := upper.PickTopHalf();
    }

    method BisectUpperToBottom(ch: nat) returns (r: Result)
      requires InList() && upper.Size() >= 3 && ch == Char(upper.center) && key > ch
      modifies upper, lower
      ensures forall g :: old(TopSearch(g)) ==> lower.top >= old(lower.top) && lower.top >= old(upper.center)
      ensures r.Searching? || r.CheckingBoundary?
      ensures upper.top == old(upper.center)
      ensures forall g :: old(TopSearch(g)) ==> TopStep(g, r, old(upper.Size()), old(upper.bottom - upper.center))
    {
      hide BSearchState.Last, IsLastNotAbove;
      NarrowLower(ch);
      r := upper.PickBottomHalf();
    }

    method BisectLower(ch: nat) returns (r: Result)
      requires InList() && lower.Size() >= 3 && ch == Char(lower.center)
      modifies lower
      ensures lower.top >= old(lower.top)
      ensures forall h :: old(BottomBrackets(h)) ==>
                BottomStep(h, r, old(lower.Size()), old(lower.bottom - lower.center))
    {
      if key < ch {
        r := lower.PickTopHalf();
      } else {
        r := lower.PickBottomHalf();
      }
    }

    method BSearchBoundary(topMost: bool, text: Text) returns (r: Result)
      requires InList() && text == list.texts[Picked(topMost).center]
      modifies this`bottomCandidate, upper, lower
      ensures topMost && |text| >= depth ==> forall g :: old(TopSearch(g)) ==>
                if r.AssertionFailed? then |text| == depth
                else
                  && TopStep(g, r, old(upper.Size()), old(upper.bottom - upper.center))
                  && (r.FoundMatch? || r.FoundApproximate? ==> upper.top == old(upper.center))
      ensures !topMost ==> upper.top == old(upper.top) && upper.bottom == old(upper.bottom)
                           && upper.center == old(upper.center)
      ensures !topMost && |text| >= depth ==> forall h :: old(BottomBrackets(h)) ==>
                if r.AssertionFailed? then |text| == depth
                else BottomStep(h, r, old(lower.Size()), old(lower.bottom - lower.center))
      ensures |text| == depth ==> r.AssertionFailed?
      ensures topMost && |text| > depth ==> forall g :: old(TopSearch(g)) ==>
                && (old(NoShortAhead()) ==> NoShortAhead())
                && (old(NothingLow()) ==>
                      if old(upper.Size()) >= 3 && CharAt(text, depth) >= key then
                        NothingLow() && upper.bottom == old(upper.center)
                      else NoShortAhead())
      ensures !topMost ==> forall h :: old(BottomBrackets(h)) ==> lower.top >= old(lower.top)
    {
      hide IsLastNotAbove, HitsShort;
      var p := Picked(topMost);
      if |text| < depth {
        // the center text is a proper prefix of the query
        r := p.PickTopHalf();
        return;
      }
      if |text| == depth {
        return AssertionFailed;
      }
      var ch := text[depth];
      if p.IsUnique() {
        return if key == ch then FoundMatch else FoundApproximate;
      }
      if p.Size() == 2 {
        r := BoundaryInPair(topMost, ch);
      } else if topMost {
        r := BisectUpper(ch);
      } else {
        r := BisectLower(ch);
      }
    }

    // Every text in [allTop, allBottom] is as long as the part of the query seen so far.
    ghost predicate LongEnough()
      reads this
    {
      allBottom < |list.texts| && forall i :: allTop <= i <= allBottom ==> |list.texts[i]| >= depth
    }

    ghost predicate SomeTooShort()
      reads this
    {
      exists i :: 0 <= i < |list.texts| && allTop <= i <= allBottom && |list.texts[i]| == depth
    }

    // Texts behind one which does not end at the current depth do not end there either.
    lemma LongBehind(i: nat, j: nat)
      requires Ordered() && allTop <= i <= j <= allBottom && Char(i) >= 0
      ensures |list.texts[j]| > depth
    {
      assert Char(i) <= Char(j);
    }

    // Whether or not the search is going to hit a text which ends at the current depth is known from the
    // beginning.
    ghost predicate Foreseen(hits: bool)
      reads this, upper, lower
      requires InList()
    {
      || (NothingLow() && HitsShort(list, depth, key, allTop, upper.bottom - allTop) == hits)
      || (NoShortAhead() && !hits)
    }

    lemma TopSearchFacts(g: nat)
      requires TopSearch(g) && LongEnough()
      ensures Ordered() && upper.Valid() && allTop <= upper.top <= upper.bottom <= allBottom < |list.texts|
      ensures |list.texts[upper.center]| >= depth >= 0
      ensures |list.texts[upper.center]| == depth ==> SomeTooShort()
    {
    }

    // Probing the line in the center
    lemma HitsStep(g: nat)
      requires TopSearch(g) && LongEnough() && NothingLow() && upper.center !in list.unreadable
      ensures upper.bottom < |list.texts| && (upper.Size() >= 3 ==> upper.center > allTop)
      ensures HitsShort(list, depth, key, allTop, upper.bottom - allTop) <==>
              || |list.texts[upper.center]| == depth
              || (upper.Size() >= 3 && CharAt(list.texts[upper.center], depth) >= key
                  && HitsShort(list, depth, key, allTop, upper.center - allTop))
    {
      hide CharAt;
    }

    lemma LongInCenter(g: nat)
      requires TopSearch(g) && LongEnough() && NoShortAhead()
      ensures |list.texts[upper.center]| > depth
    {
      LongBehind(upper.top, upper.center);
    }

    // One iteration of the search for the top-most boundary
    method ProbeUpper(ghost g: nat, ghost hits: bool) returns (r: Result)
      requires upper != lower && TopSearch(g) && LongEnough() && InList() && Foreseen(hits)
      requires upper.center !in list.unreadable
      modifies this`bottomCandidate, upper, lower
      ensures if r.AssertionFailed? then hits && SomeTooShort()
              else TopStep(g, r, old(upper.Size()), old(upper.bottom - upper.center))
      ensures r.Searching? || r.CheckingBoundary? ==> InList() && Foreseen(hits)
      ensures r.FoundMatch? || r.FoundApproximate? ==> !hits && NoShortAhead() && upper.top == old(upper.center)
    {
      hide CharAt, HitsShort, BSearchState.TopSearch, BSearchState.Ordered, BSearchState.LongEnough,
           BSearchState.TopStep, BSearchState.NothingLow, BSearchState.NoShortAhead;
      TopSearchFacts(g);
      if NoShortAhead() {
        LongInCenter(g);
      }
      if NothingLow() {
        HitsStep(g);
      }
      r := BSearchBoundary(true, list.texts[upper.center]);
      if !r.AssertionFailed? {
        StepFacts(g, r, old(upper.Size()), old(upper.bottom - upper.center));
      }
    }

    lemma StepFacts(g: nat, r: Result, size: nat, left: int)
      requires TopStep(g, r, size, left) && upper != lower && allBottom < |list.texts| && depth >= 0
      ensures r.Searching? || r.CheckingBoundary? ==> InList()
      ensures (r.FoundMatch? || r.FoundApproximate?) && NothingLow() ==> upper.bottom == allTop
    {
    }

    method BSearchTopMost(ghost g: nat, ghost before: seq<nat>) returns (r: Result, ghost lines: seq<nat>)
      requires upper != lower && TopSearch(g) && LongEnough()
      requires NothingLow() && upper.bottom == allBottom && AllReadable(list, before)
      modifies this`bottomCandidate, upper, lower
      ensures r.AssertionFailed? <==> HitsShort(list, depth, key, allTop, allBottom - allTop)
      ensures Probed(list, before, lines, r.InternalFailure?)
      ensures r.FoundMatch? || r.FoundApproximate? ==> upper.top in lines
      ensures r.FoundMatch? ==> Char(lower.top) >= 0
      ensures match r
              case FoundMatch => upper.Valid() && upper.top == upper.bottom == g && Char(g) == key && LowerBrackets()
                                 && bottomCandidate == UINT_MAX
              case FoundApproximate => upper.top == upper.bottom == g && Char(g) != key && Char(g) >= 0
              case InternalFailure => true
              case AssertionFailed => SomeTooShort()
              case _ => false
    {
      hide CharAt, IsFirstNotBelow, IsLastNotAbove, BSearchState.Coupled, HitsShort;
      ghost var hits := HitsShort(list, depth, key, allTop, allBottom - allTop);
      lines := before;
      while true
        invariant TopSearch(g) && InList() && Foreseen(hits) && Probed(list, before, lines, false)
        decreases upper.Size(), upper.bottom - upper.center
      {
        ProbedNext(list, before, lines, upper.center);
        lines := lines + [upper.center];
        if upper.center in list.unreadable {
          if NothingLow() {
            HitsNothingUnreadable(upper.bottom - allTop);
          }
          return InternalFailure, lines;
        }
        r := ProbeUpper(g, hits);
        if !r.Searching? && !r.CheckingBoundary? {
          return;
        }
      }
    }

    lemma HitsNothingUnreadable(n: nat)
      requires depth >= 0 && allTop + n < |list.texts| && allTop + n / 2 in list.unreadable
      ensures !HitsShort(list, depth, key, allTop, n)
    {
    }

    method BSearchBottomMost(ghost h: nat, ghost before: seq<nat>) returns (r: Result, ghost lines: seq<nat>)
      requires upper != lower && InList() && BottomBrackets(h) && LongEnough() && Char(lower.top) >= 0
      requires AllReadable(list, before)
      modifies this`bottomCandidate, upper, lower
      ensures Probed(list, before, lines, r.InternalFailure?)
      ensures upper.top == old(upper.top) && upper.bottom == old(upper.bottom)
      ensures match r
              case FoundMatch => lower.top == lower.bottom == h
              case InternalFailure => true
              case _ => false
    {
      hide CharAt, IsFirstNotBelow, IsLastNotAbove, HitsShort, BSearchState.TopSearch, Probed, FailsOnLast,
           AllReadable;
      lines := before;
      BeforeProbing(list, before);
      while true
        invariant Probed(list, before, lines, false)
        invariant BottomBrackets(h) && InList() && old(lower.top) <= lower.top && Char(lower.top) >= 0
        invariant upper.top == old(upper.top) && upper.bottom == old(upper.bottom)
        decreases lower.Size(), lower.bottom - lower.center
      {
        ProbedNext(list, before, lines, lower.center);
        lines := lines + [lower.center];
        if lower.center in list.unreadable {
          return InternalFailure, lines;
        }
        LongBehind(lower.top, lower.center);
        r := BSearchBoundary(false, list.texts[lower.center]);
        if r.Searching? {
          LongBehind(old(lower.top), lower.top);
        }
        if r.FoundApproximate? {
          return InternalFailure, lines;
        }
        if !r.Searching? && !r.CheckingBoundary? {
          return;
        }
      }
    }

    method PrepareNextIteration(ch: nat)
      requires upper != lower && depth >= -1 && allTop <= allBottom
      modifies this`bottomCandidate, this`key, this`depth, upper, lower
      ensures upper.top == lower.top == allTop && upper.bottom == lower.bottom == allBottom
      ensures upper.center == lower.center == upper.ComputeCenter()
      ensures bottomCandidate == UINT_MAX && key == ch && depth == old(depth) + 1
    {
      upper.top, lower.top := allTop, allTop;
      upper.bottom, lower.bottom := allBottom, allBottom;
      upper.center := upper.ComputeCenter();
      lower.center := upper.center;
      bottomCandidate := UINT_MAX;
      key := ch;
      depth := depth + 1;
    }

    method PrepareForNextCharacter()
      modifies this`allTop, this`allBottom
      ensures allTop == upper.top && allBottom == lower.bottom
    {
      allTop := upper.top;
      allBottom := lower.bottom;
    }

    // get_result()
    function GetResult(): SearchResult
      reads this, upper
    {
      if upper.IsEmpty() then NotFound else At(upper.top)
    }
  }

  datatype SearchResult = NotFound | At(line: nat) | Crash

  // Boundaries exist.
  lemma {:induction false} FirstExists(texts: seq<Text>, depth: nat, top: nat, bottom: nat, key: nat) returns (g: nat)
    requires top <= bottom < |texts|
    ensures IsFirstNotBelow(texts, depth, top, bottom, key, g)
    decreases bottom - top
  {
    if CharAt(texts[top], depth) >= key || top == bottom {
      g := top;
    } else {
      g := FirstExists(texts, depth, top + 1, bottom, key);
    }
  }

  lemma {:induction false} LastExists(texts: seq<Text>, depth: nat, top: nat, bottom: nat, key: nat,
                                      g: nat) returns (h: nat)
    requires top <= g <= bottom < |texts| && CharAt(texts[g], depth) == key
    ensures IsLastNotAbove(texts, depth, top, bottom, key, h) && g <= h
    decreases bottom - top
  {
    if CharAt(texts[bottom], depth) <= key {
      h := bottom;
    } else {
      h := LastExists(texts, depth, top, bottom - 1, key, g);
    }
  }

  // Having found both boundaries for a further character of the query, one has got exactly the
  // block of texts starting with the longer part of the query.
  lemma NextBlock(texts: seq<Text>, query: Text, m: nat, top: nat, bottom: nat, g: nat, h: nat)
    requires Sorted(texts) && m < |query| && IsBlock(texts, query[..m], top, bottom)
    requires IsFirstNotBelow(texts, m, top, bottom, query[m], g) && CharAt(texts[g], m) == query[m]
    requires IsLastNotAbove(texts, m, top, bottom, query[m], h) && CharAt(texts[h], m) == query[m]
    ensures IsBlock(texts, query[..m + 1], g, h)
  {
    assert query[..m] == query[..m + 1][..m];
    BlockSorted(texts, query[..m], top, bottom, g, g);
    assert g <= h;
    forall i | 0 <= i < |texts|
      ensures query[..m + 1] <= texts[i] <==> g <= i <= h
    {
      if top <= i <= bottom {
        PrefixByChar(query, m, texts[i]);
        if g <= i <= h {
          BlockSorted(texts, query[..m], top, bottom, g, i);
          BlockSorted(texts, query[..m], top, bottom, i, h);
        }
      }
    }
  }

  // The state after `m` characters of the query have been matched
  ghost predicate Matched(state: BSearchState, query: Text, m: nat)
    reads state
  {
    && state.upper != state.lower && state.depth == m - 1 && |state.list.texts| <= UINT_MAX
    && m <= |query| && IsBlock(state.list.texts, query[..m], state.allTop, state.allBottom)
  }

  // The search in the block of texts sharing `m` characters with the query has been set up.
  ghost predicate Prepared(state: BSearchState, query: Text, m: nat)
    reads state, state.upper, state.lower
  {
    && InBlock(state, query, m)
    && state.upper.top == state.lower.top == state.allTop && state.upper.bottom == state.lower.bottom == state.allBottom
    && state.upper.center == state.lower.center == state.upper.ComputeCenter()
    && state.bottomCandidate == UINT_MAX
  }

  // The search is for character `m` of the query, among the texts sharing the characters before it.
  ghost predicate InBlock(state: BSearchState, query: Text, m: nat)
    reads state
  {
    && state.upper != state.lower && state.depth == m && |state.list.texts| <= UINT_MAX
    && m < |query| && state.key == query[m]
    && IsBlock(state.list.texts, query[..m], state.allTop, state.allBottom)
  }

  lemma StartIteration(state: BSearchState, query: Text, m: nat) returns (g: nat)
    requires Prepared(state, query, m) && Sorted(state.list.texts)
    ensures state.TopSearch(g) && state.LongEnough()
  {
    var texts := state.list.texts;
    forall i, j | state.allTop <= i <= j <= state.allBottom
      ensures CharAt(texts[i], m) <= CharAt(texts[j], m)
    {
      BlockSorted(texts, query[..m], state.allTop, state.allBottom, i, j);
    }
    g := FirstExists(texts, m, state.allTop, state.allBottom, state.key);
  }

  lemma TooShortIsProperPrefix(state: BSearchState, query: Text, m: nat)
    requires InBlock(state, query, m) && state.SomeTooShort()
    ensures exists i :: 0 <= i < |state.list.texts| && ProperPrefix(state.list.texts[i], query)
  {
    var i :| 0 <= i < |state.list.texts| && state.allTop <= i <= state.allBottom && |state.list.texts[i]| == m;
    assert state.list.texts[i] == query[..m];
    assert ProperPrefix(state.list.texts[i], query);
  }

  // No text continues with the next character of the query.
  lemma ApproximateIsResult(texts: seq<Text>, query: Text, m: nat, top: nat, bottom: nat, g: nat)
    requires Sorted(texts) && m < |query| && IsBlock(texts, query[..m], top, bottom)
    requires IsFirstNotBelow(texts, m, top, bottom, query[m], g) && CharAt(texts[g], m) != query[m]
             && CharAt(texts[g], m) >= 0
    ensures IsResult(texts, query, g) && !ProperPrefix(texts[g], query)
    ensures forall j :: 0 <= j < |texts| ==> !(query[..m + 1] <= texts[j])
  {
    forall j | 0 <= j < |texts|
      ensures !(query[..m + 1] <= texts[j]) && !(query <= texts[j])
    {
      ShorterPrefix(query, m + 1, texts[j]);
      ShorterPrefix(query[..m + 1], m, texts[j]);
      assert query[..m + 1][..m] == query[..m];
      if query[..m] <= texts[j] {
        PrefixByChar(query, m, texts[j]);
        if j >= g {
          BlockSorted(texts, query[..m], top, bottom, g, j);
        }
      }
    }
    assert IsClosest(texts, query, m, g);
    ShorterPrefix(texts[g], |texts[g]|, query);
  }

  // All of the query has been found.
  lemma MatchIsResult(texts: seq<Text>, query: Text, m: nat, top: nat, bottom: nat, g: nat)
    requires Sorted(texts) && m + 1 == |query| && IsBlock(texts, query[..m], top, bottom)
    requires IsFirstNotBelow(texts, m, top, bottom, query[m], g) && CharAt(texts[g], m) == query[m]
    ensures IsResult(texts, query, g) && !ProperPrefix(texts[g], query)
  {
    assert query[..m + 1] == query;
    PrefixByChar(query, m, texts[g]);
    forall j | 0 <= j < g
      ensures !(query <= texts[j])
    {
      ShorterPrefix(query, m, texts[j]);
    }
  }

  // The search has ended at the right place.
  ghost predicate Ended(state: BSearchState, query: Text)
    reads state, state.upper
  {
    && state.upper.top == state.upper.bottom < |state.list.texts|
    && IsResult(state.list.texts, query, state.upper.top)
    && !ProperPrefix(state.list.texts[state.upper.top], query)
  }

  ghost predicate SomeProperPrefix(texts: seq<Text>, query: Text) {
    exists i :: 0 <= i < |texts| && ProperPrefix(texts[i], query)
  }

  // One character of the query
  method MatchCharacter(state: BSearchState, query: Text, m: nat, ghost before: seq<nat>)
      returns (result: Result, ghost lines: seq<nat>)
    requires Matched(state, query, m) && m < |query| && Sorted(state.list.texts) && AllReadable(state.list, before)
    modifies state, state.upper, state.lower
    ensures Probed(state.list, before, lines, result.InternalFailure?)
    ensures result.FoundApproximate? || (result.FoundMatch? && m + 1 == |query|) ==> state.upper.top in lines
    ensures match result
            case FoundMatch => if m + 1 < |query| then Matched(state, query, m + 1) else Ended(state, query)
            case FoundApproximate => Ended(state, query)
            case InternalFailure => true
            case AssertionFailed => SomeProperPrefix(state.list.texts, query)
            case _ => false
    ensures result.AssertionFailed? <==>
              HitsShort(state.list, m, query[m], old(state.allTop), old(state.allBottom - state.allTop))
    ensures result.FoundApproximate? ==> forall i :: 0 <= i < |state.list.texts| ==>
              !(query[..m + 1] <= state.list.texts[i])
  {
    hide HitsShort, IsResult;
    state.PrepareNextIteration(query[m]);
    ghost var texts, top, bottom := state.list.texts, state.allTop, state.allBottom;
    ghost var g := StartIteration(state, query, m);
    result, lines := state.BSearchTopMost(g, before);
    if result.AssertionFailed? {
      TooShortIsProperPrefix(state, query, m);
    }
    if result.FoundApproximate? {
      ApproximateIsResult(texts, query, m, top, bottom, g);
    }
    if !result.FoundMatch? {
      return;
    }
    if m + 1 == |query| {
      MatchIsResult(texts, query, m, top, bottom, g);
      return;
    }
    result, lines := MatchBottom(state, query, m, g, before, lines);
  }

  method MatchBottom(state: BSearchState, query: Text, m: nat, ghost g: nat, ghost before: seq<nat>,
                     ghost between: seq<nat>)
      returns (result: Result, ghost lines: seq<nat>)
    requires InBlock(state, query, m) && m + 1 < |query| && Sorted(state.list.texts)
    requires state.upper.Valid() && state.upper.top == state.upper.bottom == g && state.First(g)
             && state.Char(g) == query[m]
    requires state.LowerBrackets() && state.LongEnough() && state.bottomCandidate == UINT_MAX
    requires state.Char(state.lower.top) >= 0 && Probed(state.list, before, between, false)
    modifies state, state.lower, state.upper
    ensures Probed(state.list, before, lines, result.InternalFailure?)
    ensures match result
            case FoundMatch => Matched(state, query, m + 1)
            case InternalFailure => true
            case _ => false
  {
    ghost var texts, top, bottom := state.list.texts, state.allTop, state.allBottom;
    ghost var h := LastExists(texts, m, top, bottom, query[m], g);
    assert state.Last(h);
    LastIsMatch(texts, query, m, top, bottom, g, h);
    result, lines := state.BSearchBottomMost(h, between);
    if result.FoundMatch? {
      state.PrepareForNextCharacter();
      NextBlock(texts, query, m, top, bottom, g, h);
    }
  }

  lemma LastIsMatch(texts: seq<Text>, query: Text, m: nat, top: nat, bottom: nat, g: nat, h: nat)
    requires Sorted(texts) && m < |query| && IsBlock(texts, query[..m], top, bottom) && g <= h
    requires top <= g <= bottom && CharAt(texts[g], m) == query[m] && IsLastNotAbove(texts, m, top, bottom, query[m], h)
    ensures CharAt(texts[h], m) == query[m]
  {
    BlockSorted(texts, query[..m], top, bottom, g, h);
  }

  // While the texts sharing the first `m` characters with the query are searched, a text is probed which
  // consists of nothing but those characters.
  ghost predicate HitsPrefix(list: TextList, query: Text, m: nat) {
    m < |query| && exists top: nat, bottom: nat ::
      IsBlock(list.texts, query[..m], top, bottom) && HitsShort(list, m, query[m], top, bottom - top)
  }

  lemma BlockIsUnique(texts: seq<Text>, p: Text, top: nat, bottom: nat, top': nat, bottom': nat)
    requires IsBlock(texts, p, top, bottom) && IsBlock(texts, p, top', bottom')
    ensures top == top' && bottom == bottom'
  {
    assert p <= texts[top] && p <= texts[bottom] && p <= texts[top'] && p <= texts[bottom'];
  }

  // Nothing is hit where no text shares that many characters.
  lemma NoBlockBehind(list: TextList, query: Text, m: nat, n: nat)
    requires m <= n <= |query| && forall i :: 0 <= i < |list.texts| ==> !(query[..m] <= list.texts[i])
    ensures !HitsPrefix(list, query, n)
  {
    if n < |query| {
      forall top: nat, bottom: nat | IsBlock(list.texts, query[..n], top, bottom) ensures false {
        assert query[..n] <= list.texts[top];
        ShortenPrefix(query, m, n, list.texts[top]);
      }
    }
  }

  lemma HitsInBlock(list: TextList, query: Text, m: nat, top: nat, bottom: nat)
    requires m < |query| && IsBlock(list.texts, query[..m], top, bottom)
    ensures HitsPrefix(list, query, m) <==> HitsShort(list, m, query[m], top, bottom - top)
  {
    forall top': nat, bottom': nat | IsBlock(list.texts, query[..m], top', bottom')
      ensures top == top' && bottom == bottom'
    {
      BlockIsUnique(list.texts, query[..m], top, bottom, top', bottom');
    }
  }

  // Search::binary_search_utf8(): in a sorted list, the result is what it is supposed to be
  // whenever there is a result.  There is none if the query or the list is empty, or if some item
  // cannot be retrieved; and the assertion fails if a text is probed which is the part of the query
  // read so far, which is known in advance for each part of the query.
  method BinarySearchUtf8(list: TextList, query: Text) returns (r: SearchResult, ghost lines: seq<nat>)
    requires Sorted(list.texts) && |list.texts| <= UINT_MAX
    ensures query == [] || list.texts == [] ==> r == NotFound && lines == []
    ensures query != [] && list.texts != [] ==>
              if r.NotFound? then
                && lines != [] && lines[|lines| - 1] < |list.texts| && lines[|lines| - 1] in list.unreadable
                && forall i :: i in lines[..|lines| - 1] ==> i < |list.texts| && i !in list.unreadable
              else forall i :: i in lines ==> i < |list.texts| && i !in list.unreadable
    ensures r.At? ==> r.line in lines
    ensures r.Crash? ==> SomeProperPrefix(list.texts, query)
    ensures r.At? ==> IsResult(list.texts, query, r.line) && !ProperPrefix(list.texts[r.line], query)
    ensures r.Crash? ==> exists m: nat :: HitsPrefix(list, query, m)
    ensures r.At? ==> forall m: nat :: !HitsPrefix(list, query, m)
    ensures list.unreadable == {} ==> (r.Crash? <==> exists m: nat :: HitsPrefix(list, query, m))
  {
    hide HitsPrefix, HitsShort, IsResult, IsBlock;
    if query == [] {
      NothingHit(list, query);
      return NotFound, [];
    }
    if |list.texts| == 0 {
      NothingHit(list, query);
      return NotFound, [];
    }
    var state := new BSearchState(list);
    var m := 0;
    lines := [];
    StartBlock(state, query);
    while m < |query|
      invariant m <= |query| && state.list == list && AllReadable(list, lines)
      invariant m == |query| ==> state.upper.top in lines
      invariant fresh(state) && fresh(state.upper) && fresh(state.lower)
      invariant if m < |query| then Matched(state, query, m) else Ended(state, query)
      invariant forall k: nat :: k < m ==> !HitsPrefix(list, query, k)
    {
      HitsInBlock(list, query, m, state.allTop, state.allBottom);
      var result;
      result, lines := MatchCharacter(state, query, m, lines);
      if result.InternalFailure? {
        return NotFound, lines;
      }
      if result.AssertionFailed? {
        return Crash, lines;
      }
      if result.FoundApproximate? {
        forall n: nat | n > m ensures !HitsPrefix(list, query, n) {
          HitsNothingBehind(list, query, m + 1, n);
        }
        break;
      }
      m := m + 1;
    }
    forall n: nat | n >= |query| ensures !HitsPrefix(list, query, n) {
      HitsNothingBehind(list, query, |query|, n);
    }
    return state.GetResult(), lines;
  }

  lemma NothingHit(list: TextList, query: Text)
    requires query == [] || list.texts == []
    ensures forall m: nat :: !HitsPrefix(list, query, m)
  {
  }

  lemma StartBlock(state: BSearchState, query: Text)
    requires state.upper != state.lower && state.depth == -1 && 0 < |state.list.texts| <= UINT_MAX
    requires state.allTop == 0 && state.allBottom == |state.list.texts| - 1
    ensures Matched(state, query, 0)
  {
    assert query[..0] == [];
  }

  lemma HitsNothingBehind(list: TextList, query: Text, m: nat, n: nat)
    requires n >= m && (n < |query| ==> forall i :: 0 <= i < |list.texts| ==> !(query[..m] <= list.texts[i]))
    ensures !HitsPrefix(list, query, n)
  {
    if n < |query| {
      NoBlockBehind(list, query, m, n);
    }
  }

  // ---------------------------------------------------------------- hitting a prefix, in closed form

  function Halved(n: nat, j: nat): nat {
    if j == 0 then n else Halved(n / 2, j - 1)
  }

  // The j-th line probed holds a text which ends at the given depth, and all lines probed before are not
  // below the boundary.
  ghost predicate HitsInStep(list: TextList, depth: nat, key: nat, top: nat, n: nat, j: nat)
    requires top + n < |list.texts|
  {
    && j >= 1 && (j > 1 ==> Halved(n, j - 1) >= 1)
    && top + Halved(n, j) < |list.texts|
    && top + Halved(n, j) !in list.unreadable && |list.texts[top + Halved(n, j)]| == depth
    && forall k :: 1 <= k < j ==>
         && top + Halved(n, k) < |list.texts| && top + Halved(n, k) !in list.unreadable
         && CharAt(list.texts[top + Halved(n, k)], depth) >= key
  }

  lemma {:induction false} HitsShortIff(list: TextList, depth: nat, key: nat, top: nat, n: nat)
    requires top + n < |list.texts|
    ensures HitsShort(list, depth, key, top, n) <==> exists j: nat :: HitsInStep(list, depth, key, top, n, j)
    decreases n
  {
    var p := top + n / 2;
    assert Halved(n, 1) == Halved(n / 2, 0) == n / 2;
    if n < 2 || p in list.unreadable || |list.texts[p]| == depth || CharAt(list.texts[p], depth) < key {
      if p !in list.unreadable && |list.texts[p]| == depth {
        assert HitsInStep(list, depth, key, top, n, 1);
      }
      forall j: nat | HitsInStep(list, depth, key, top, n, j) ensures j == 1 {
        if j > 1 {
          HalvedShrinks(n / 2, j - 2);
        }
      }
    } else {
      HitsShortIff(list, depth, key, top, n / 2);
      if j: nat :| HitsInStep(list, depth, key, top, n / 2, j) {
        HitsLater(list, depth, key, top, n, j);
      }
      if j: nat :| HitsInStep(list, depth, key, top, n, j) {
        HitsLater(list, depth, key, top, n, j - 1);
      }
    }
  }

  lemma {:induction false} HalvedShrinks(n: nat, j: nat)
    ensures Halved(n, j) <= n
  {
    if j > 0 {
      HalvedShrinks(n / 2, j - 1);
    }
  }

  lemma {:induction false} HitsLater(list: TextList, depth: nat, key: nat, top: nat, n: nat, j: nat)
    requires top + n < |list.texts| && n >= 2 && j >= 1
    requires top + n / 2 !in list.unreadable && CharAt(list.texts[top + n / 2], depth) >= key
    ensures HitsInStep(list, depth, key, top, n, j + 1) <==> HitsInStep(list, depth, key, top, n / 2, j)
  {
    forall k: nat | k >= 1 ensures Halved(n, k) == Halved(n / 2, k - 1) {
    }
    HalvedShrinks(n / 2, j);
    if HitsInStep(list, depth, key, top, n, j + 1) {
      forall k | 1 <= k < j
        ensures && top + Halved(n / 2, k) < |list.texts| && top + Halved(n / 2, k) !in list.unreadable
                && CharAt(list.texts[top + Halved(n / 2, k)], depth) >= key
      {
        assert Halved(n, k + 1) == Halved(n / 2, k);
      }
    }
    if HitsInStep(list, depth, key, top, n / 2, j) {
      forall k | 1 <= k < j + 1 ensures && top + Halved(n, k) < |list.texts| && top + Halved(n, k) !in list.unreadable
                                        && CharAt(list.texts[top + Halved(n, k)], depth) >= key {
        if k == 1 {
          assert Halved(n, 1) == Halved(n / 2, 0) == n / 2;
        } else {
          assert Halved(n, k) == Halved(n / 2, k - 1);
        }
      }
    }
  }

  // If there is nothing but the part of the query read so far in front of the boundary, then that is hit.
  lemma {:induction false} PrefixesInFront(list: TextList, depth: nat, key: nat, top: nat, n: nat)
    requires top + n < |list.texts| && |list.texts[top]| == depth
    requires forall i :: top <= i <= top + n ==>
               i !in list.unreadable && (|list.texts[i]| == depth || CharAt(list.texts[i], depth) >= key)
    ensures HitsShort(list, depth, key, top, n)
    decreases n
  {
    if n >= 2 && |list.texts[top + n / 2]| != depth {
      PrefixesInFront(list, depth, key, top, n / 2);
    }
  }

  // Of three texts, the first one is a proper prefix of the query.  It may or may not be hit.
  lemma PrefixMayBeMissed()
    ensures var list := TextList([[1], [1, 2], [1, 3]], {});
            && Sorted(list.texts) && ProperPrefix([1], [1, 4]) && ProperPrefix([1], [1, 2])
            && !HitsShort(list, 1, 4, 0, 2) && HitsShort(list, 1, 2, 0, 2)
  {
    var list := TextList([[1], [1, 2], [1, 3]], {});
    assert list.texts[0] == [1] && list.texts[1] == [1, 2] && list.texts[2] == [1, 3];
    assert HitsShort(list, 1, 2, 0, 1);
  }

  // The text searched for, and a prefix of it in front of that
  lemma PrefixInFrontIsHit()
    ensures var list := TextList([[1, 2], [1, 2, 3]], {});
            Sorted(list.texts) && HitsPrefix(list, [1, 2, 3], 2)
  {
    var list, query := TextList([[1, 2], [1, 2, 3]], {}), [1, 2, 3];
    assert list.texts[0] == [1, 2] && list.texts[1] == [1, 2, 3] && query[..2] == [1, 2];
    PrefixesInFront(list, 2, 3, 0, 1);
    HitsInBlock(list, query, 2, 0, 1);
  }

  // Where all texts in front of the boundary are proper prefixes of the query, whatever else there is in
  // the list, there is no way around the assertion.
  method SearchAmongPrefixes(list: TextList, query: Text, ghost m: nat, ghost top: nat, ghost bottom: nat)
      returns (r: SearchResult)
    requires Sorted(list.texts) && |list.texts| <= UINT_MAX && list.unreadable == {}
    requires m < |query| && IsBlock(list.texts, query[..m], top, bottom) && |list.texts[top]| == m
    requires forall i :: top <= i <= bottom ==> |list.texts[i]| == m || CharAt(list.texts[i], m) >= query[m]
    ensures r.Crash?
  {
    PrefixesInFront(list, m, query[m], top, bottom - top);
    HitsInBlock(list, query, m, top, bottom);
    ghost var lines;
    r, lines := BinarySearchUtf8(list, query);
  }
}
