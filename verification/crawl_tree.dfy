// The list broker as seen by the directory crawler, and the depth-first walk the crawler is
// supposed to perform over it, written as a plain recursion over the directory structure.
module CrawlTree {
  import opened UInt

  const MAX_DIRECTORY_DEPTH: nat := 100

  // ID::List; 0 is the invalid ID
  type ListId = nat

  datatype Direction = NoDirection | Forward | Backward

  datatype RecursiveMode = Flat | DepthFirst

  datatype ErrorCode =
    | OK | INTERNAL | INVALID_ID | INVALID_URI | INCONSISTENT | OUT_OF_RANGE | EMPTY
    | OVERFLOWN | UNDERFLOWN | INVALID_STREAM_URL | INVALID_STRBO_URL | NOT_FOUND
    | BUSY_500 | BUSY_1000 | BUSY_1500 | BUSY_3000 | BUSY_5000 | BUSY
    | INTERRUPTED | PHYSICAL_MEDIA_IO | NET_IO | PROTOCOL | AUTHENTICATION
    | NOT_SUPPORTED | PERMISSION_DENIED

  // Errors after which get_child_id_for_enter() gives up instead of skipping the directory
  predicate IsHardError(e: ErrorCode) {
    e in {OK, INTERNAL, INVALID_ID, INVALID_URI, INCONSISTENT, OUT_OF_RANGE, EMPTY, OVERFLOWN,
          UNDERFLOWN, INVALID_STREAM_URL, INVALID_STRBO_URL, NOT_FOUND}
  }

  // How the broker answers when asked for the list ID behind a directory item
  datatype Lookup = Answer(id: ListId) | Throws(error: ErrorCode)

  // Unreadable: the broker does not deliver the item
  datatype Item = File | Directory(lookup: Lookup) | Unreadable

  datatype ParentLink = NoLink | Link(list: ListId, line: uint32)

  datatype Listing = Listing(items: seq<Item>, parent: ParentLink)

  // Entering a list which is not in the map fails.
  type Broker = map<ListId, Listing>

  function Items(b: Broker, l: ListId): seq<Item> {
    if l in b then b[l].items else []
  }

  // The parent list can be looked up and entered.
  predicate Ascends(b: Broker, l: ListId) {
    l in b && b[l].parent.Link? && b[l].parent.list > 0 && b[l].parent.list in b
  }

  predicate LeadsTo(b: Broker, l: ListId, i: nat, c: ListId) {
    c > 0 && c in b && i < |Items(b, l)| && Items(b, l)[i] == Directory(Answer(c))
  }

  // Lists are small enough for an `int` line number, and links up match links down unless
  // they are broken.
  ghost predicate WellFormed(b: Broker) {
    && (forall l {:trigger b[l]} :: l in b ==> |b[l].items| <= INT_MAX + 1)
    && (forall l, i: nat, c :: l in b && LeadsTo(b, l, i, c) && Ascends(b, c) ==> b[c].parent == Link(l, i))
  }

  // WellFormed, and no link is broken
  ghost predicate Consistent(b: Broker) {
    && WellFormed(b)
    && forall l, i: nat, c :: l in b && LeadsTo(b, l, i, c) ==> Ascends(b, c)
  }

  // Line on which the cursor is placed in the parent list when going back up
  function ParentLine(b: Broker, l: ListId): nat
    requires Ascends(b, l)
  {
    ClipLine(b[l].parent.line, |Items(b, b[l].parent.list)|)
  }

  function ClipLine(line: nat, n: nat): nat {
    if n > 0 && line >= n then n - 1 else line
  }

  // The crawler looks at an item, or goes from a list back up to its parent.
  datatype Step = See(list: ListId, line: nat, depth: nat) | Leave(list: ListId, depth: nat)

  datatype Outcome = FoundAt(list: ListId, line: nat, depth: nat) | Fault | Exhausted | AssertionFails {
    function Then(next: Outcome): Outcome {
      if Exhausted? then next else this
    }
  }

  datatype Search = Search(b: Broker, mode: RecursiveMode, direction: Direction) {
    // check_skip_directory()
    predicate SkipsDirectories(d: nat) {
      mode.Flat? || d >= MAX_DIRECTORY_DEPTH
    }

    predicate Enters(l: ListId, i: nat, d: nat) {
      && !direction.NoDirection?
      && !SkipsDirectories(d)
      && i < |Items(b, l)|
      && Items(b, l)[i].Directory?
      && Items(b, l)[i].lookup.Answer?
      && Items(b, l)[i].lookup.id > 0
      && Items(b, l)[i].lookup.id in b
    }

    function Child(l: ListId, i: nat): ListId
      requires i < |Items(b, l)| && Items(b, l)[i].Directory? && Items(b, l)[i].lookup.Answer?
    {
      Items(b, l)[i].lookup.id
    }

    // Line on which the cursor ends up in a list entered from its parent
    function Entry(l: ListId): nat {
      if direction.Backward? && |Items(b, l)| > 0 then |Items(b, l)| - 1 else 0
    }

    predicate CanMove(l: ListId, i: nat) {
      match direction
      case Forward => i + 1 < |Items(b, l)|
      case Backward => i > 0
      case NoDirection => false
    }

    function Moved(i: nat): nat
      requires direction.Forward? || (direction.Backward? && i > 0)
    {
      if direction.Forward? then i + 1 else i - 1
    }

    // The item in line 0 is stepped over unseen in backward direction unless the crawler has
    // moved away from its entry point in some way (has_skipped_first_).
    predicate Blind(i: nat, hs: bool) {
      direction.Backward? && !hs && i == 0
    }

    // Everything that happens in list `l` and below from line `i` on.
    function Walk(l: ListId, i: nat, d: nat, hs: bool): (steps: seq<Step>)
      decreases if d < MAX_DIRECTORY_DEPTH then MAX_DIRECTORY_DEPTH - d else 0,
                if direction.Forward? then |Items(b, l)| - i else i
    {
      if i >= |Items(b, l)| || Blind(i, hs) then []
      else
        var e := Enters(l, i, d);
        [See(l, i, d)]
        + (if e then Walk(Child(l, i), Entry(Child(l, i)), d + 1, false) + [Leave(Child(l, i), d + 1)] else [])
        + (if CanMove(l, i) then Walk(l, Moved(i), d, hs || e) else [])
    }

    function Beyond(l: ListId, i: nat, d: nat, hs: bool): seq<Step> {
      if CanMove(l, i) then Walk(l, Moved(i), d, hs) else []
    }

    // What is left to do after the end of list `l` has been reached
    function Up(l: ListId, d: nat): seq<Step>
      decreases d
    {
      if d <= 1 || direction.NoDirection? then []
      else
        [Leave(l, d)]
        + if Ascends(b, l) then Beyond(b[l].parent.list, ParentLine(b, l), d - 1, true) + Up(b[l].parent.list, d - 1)
          else []
    }

    // Depth 0 happens for an operation which has been started on a list already entered: the
    // end of the first directory entered is taken for the end of the top-level list.
    function Stray(l: ListId, i: nat, hs: bool): seq<Step>
      decreases if direction.Forward? then |Items(b, l)| - i else i
    {
      if i >= |Items(b, l)| || Blind(i, hs) then []
      else
        [See(l, i, 0)]
        + if Enters(l, i, 0) then Walk(Child(l, i), Entry(Child(l, i)), 1, false)
          else if CanMove(l, i) then Stray(l, Moved(i), hs)
          else []
    }

    // Everything left to do when the item in line `i` is looked at next
    function From(l: ListId, i: nat, d: nat, hs: bool): seq<Step> {
      if d == 0 then Stray(l, i, hs) else Walk(l, i, d, hs) + Up(l, d)
    }

    // Everything left to do when the cursor is moved away from line `i` next
    function After(l: ListId, i: nat, d: nat, hs: bool): seq<Step> {
      if d == 0 then (if CanMove(l, i) then Stray(l, Moved(i), hs) else [])
      else Beyond(l, i, d, hs) + Up(l, d)
    }

    function Verdict(s: Step): Outcome {
      match s
      case Leave(l, _) =>
        if Ascends(b, l) && |Items(b, b[l].parent.list)| > 0 then Exhausted else Fault
      case See(l, i, d) =>
        if i >= |Items(b, l)| then Fault
        else
          match Items(b, l)[i]
          case File => FoundAt(l, i, d)
          case Unreadable => Fault
          case Directory(lookup) =>
            if direction.NoDirection? then Fault
            else if !SkipsDirectories(d) && lookup.Throws? && IsHardError(lookup.error) then Fault
            else Exhausted
    }

    // The first thing to stop at
    function First(steps: seq<Step>): (o: Outcome)
      ensures !o.AssertionFails?
    {
      if steps == [] then Exhausted else Verdict(steps[0]).Then(First(steps[1..]))
    }

    // Line on which the cursor is placed in a list entered by the operation itself
    // (update_navigation())
    function StartLine(l: ListId, line: nat): (i: nat)
      ensures i < |Items(b, l)| || i == 0
    {
      var n := |Items(b, l)|;
      if n == 0 then 0
      else if line >= n then (if direction.Backward? then 0 else n - 1)
      else if direction.Backward? then n - 1 - line
      else line
    }

    lemma {:induction false} FirstAppend(s: seq<Step>, t: seq<Step>)
      ensures First(s + t) == First(s).Then(First(t))
    {
      if s == [] {
        assert s + t == t;
      } else {
        assert (s + t)[1..] == s[1..] + t;
        FirstAppend(s[1..], t);
      }
    }

    lemma {:induction false} FirstOne(s: Step)
      ensures First([s]) == Verdict(s)
    {
      assert [s][1..] == [];
    }

    lemma {:induction false} WalkUnfold(l: ListId, i: nat, d: nat, hs: bool)
      requires i < |Items(b, l)| && !Blind(i, hs)
      ensures !Enters(l, i, d) ==> Walk(l, i, d, hs) == [See(l, i, d)] + Beyond(l, i, d, hs)
      ensures Enters(l, i, d) ==>
                var c := Child(l, i);
                Walk(l, i, d, hs) ==
                [See(l, i, d)] + (Walk(c, Entry(c), d + 1, false) + ([Leave(c, d + 1)] + Beyond(l, i, d, true)))
    {
      if Enters(l, i, d) {
        var c := Child(l, i);
        var inner := Walk(c, Entry(c), d + 1, false);
        assert Walk(l, i, d, hs) == [See(l, i, d)] + (inner + [Leave(c, d + 1)]) + Beyond(l, i, d, true);
      } else {
        assert Walk(l, i, d, hs) == [See(l, i, d)] + [] + Beyond(l, i, d, hs);
      }
    }

    lemma {:induction false} WalkEnd(l: ListId, i: nat, d: nat, hs: bool)
      requires i >= |Items(b, l)| || Blind(i, hs)
      ensures Walk(l, i, d, hs) == []
    {
    }

    lemma {:induction false} FirstCons(s: Step, t: seq<Step>)
      ensures First([s] + t) == Verdict(s).Then(First(t))
    {
      FirstAppend([s], t);
      FirstOne(s);
    }

    // The end of a directory, seen from inside it and seen from its parent
    lemma {:induction false} LeaveChild(l: ListId, i: nat, d: nat)
      requires WellFormed(b) && d >= 1 && l in b && Enters(l, i, d)
      ensures var c := Child(l, i);
              First(Up(c, d + 1)) == First([Leave(c, d + 1)] + (Beyond(l, i, d, true) + Up(l, d)))
      ensures |Up(Child(l, i), d + 1)| <= 1 + |Beyond(l, i, d, true) + Up(l, d)|
    {
      var c := Child(l, i);
      assert LeadsTo(b, l, i, c);
      FirstCons(Leave(c, d + 1), Beyond(l, i, d, true) + Up(l, d));
      if !Ascends(b, c) {
        assert Up(c, d + 1) == [Leave(c, d + 1)] + [];
        FirstCons(Leave(c, d + 1), []);
      }
    }

    lemma {:induction false} Glue(see: Step, inner: seq<Step>, up: seq<Step>, outer: seq<Step>)
      requires First(up) == First(outer) && |up| <= |outer|
      ensures First([see] + (inner + outer)) == Verdict(see).Then(First(inner + up))
      ensures |[see] + (inner + outer)| > |inner + up|
    {
      FirstCons(see, inner + outer);
      FirstAppend(inner, outer);
      FirstAppend(inner, up);
    }

    lemma Regroup(see: Step, inner: seq<Step>, leave: Step, beyond: seq<Step>, up: seq<Step>)
      ensures ([see] + (inner + ([leave] + beyond))) + up == [see] + (inner + ([leave] + (beyond + up)))
    {
    }

    lemma {:induction false} EnterNested(l: ListId, i: nat, d: nat, hs: bool)
      requires WellFormed(b) && d >= 1 && l in b && Enters(l, i, d) && !Blind(i, hs)
      ensures var c := Child(l, i);
              First(From(l, i, d, hs)) == Verdict(See(l, i, d)).Then(First(From(c, Entry(c), d + 1, false)))
      ensures |From(l, i, d, hs)| > |From(Child(l, i), Entry(Child(l, i)), d + 1, false)|
    {
      var c := Child(l, i);
      var inner := Walk(c, Entry(c), d + 1, false);
      WalkUnfold(l, i, d, hs);
      Regroup(See(l, i, d), inner, Leave(c, d + 1), Beyond(l, i, d, true), Up(l, d));
      LeaveChild(l, i, d);
      Glue(See(l, i, d), inner, Up(c, d + 1), [Leave(c, d + 1)] + (Beyond(l, i, d, true) + Up(l, d)));
    }

    lemma {:induction false} LookPast(l: ListId, i: nat, d: nat, hs: bool)
      requires i < |Items(b, l)| && !Blind(i, hs) && !Enters(l, i, d)
      ensures From(l, i, d, hs) == [See(l, i, d)] + After(l, i, d, hs)
    {
      if d > 0 {
        WalkUnfold(l, i, d, hs);
        Shift(See(l, i, d), Beyond(l, i, d, hs), Up(l, d));
      } else {
        StrayUnfold(l, i, hs);
      }
    }

    lemma Shift(see: Step, beyond: seq<Step>, up: seq<Step>)
      ensures ([see] + beyond) + up == [see] + (beyond + up)
    {
    }

    lemma {:induction false} StrayUnfold(l: ListId, i: nat, hs: bool)
      requires i < |Items(b, l)| && !Blind(i, hs) && !Enters(l, i, 0)
      ensures Stray(l, i, hs) == [See(l, i, 0)] + After(l, i, 0, hs)
    {
    }

    lemma {:induction false} LookInStray(l: ListId, i: nat, hs: bool)
      requires i < |Items(b, l)| && !Blind(i, hs) && Enters(l, i, 0)
      ensures From(l, i, 0, hs) == [See(l, i, 0)] + From(Child(l, i), Entry(Child(l, i)), 1, false)
    {
      var c := Child(l, i);
      assert From(c, Entry(c), 1, false) == Walk(c, Entry(c), 1, false);
    }

    // Looking at an item: the one fact about the walk that the crawler's steps rely on
    lemma {:induction false} LookStep(l: ListId, i: nat, d: nat, hs: bool)
      requires WellFormed(b) && l in b && i < |Items(b, l)| && !Blind(i, hs)
      ensures First(From(l, i, d, hs)) == Verdict(See(l, i, d)).Then(
                if Enters(l, i, d) then First(From(Child(l, i), Entry(Child(l, i)), d + 1, false))
                else First(After(l, i, d, hs)))
      ensures |From(l, i, d, hs)| > if Enters(l, i, d) then |From(Child(l, i), Entry(Child(l, i)), d + 1, false)|
                                    else |After(l, i, d, hs)|
    {
      hide Walk, Up, Stray, From, After;
      if !Enters(l, i, d) {
        LookPast(l, i, d, hs);
        FirstCons(See(l, i, d), After(l, i, d, hs));
      } else if d > 0 {
        EnterNested(l, i, d, hs);
      } else {
        LookInStray(l, i, hs);
        FirstCons(See(l, i, d), From(Child(l, i), Entry(Child(l, i)), 1, false));
      }
    }

    // There is nothing to look at in an empty list nor in a line which is stepped over.
    lemma {:induction false} NothingToSee(l: ListId, i: nat, d: nat, hs: bool, hs': bool)
      requires (i >= |Items(b, l)| && (direction.Backward? ==> i == 0)) || Blind(i, hs)
      ensures From(l, i, d, hs) == After(l, i, d, hs')
    {
      assert !CanMove(l, i);
      assert [] + Up(l, d) == Up(l, d);
    }

    lemma FirstNone()
      ensures First([]) == Exhausted
    {
    }

    // What is left at the end of a nested list
    lemma {:induction false} LeaveParts(l: ListId, i: nat, d: nat, hs: bool)
      requires d >= 2 && !direction.NoDirection? && !CanMove(l, i)
      ensures After(l, i, d, hs) ==
              [Leave(l, d)] + if Ascends(b, l) then After(b[l].parent.list, ParentLine(b, l), d - 1, true) else []
    {
      hide Search.Walk, Search.Beyond, Search.First, Search.Verdict, Ascends, ParentLine;
      AfterAtEnd(l, i, d, hs);
    }

    lemma {:induction false} AfterAtEnd(l: ListId, i: nat, d: nat, hs: bool)
      requires d >= 1 && !CanMove(l, i)
      ensures After(l, i, d, hs) == Up(l, d)
    {
      hide Search.Walk, Search.Up;
      assert [] + Up(l, d) == Up(l, d);
    }

    // Reaching the end of a nested list
    lemma {:induction false} LeaveStep(l: ListId, i: nat, d: nat, hs: bool)
      requires d >= 2 && !direction.NoDirection? && !CanMove(l, i)
      ensures First(After(l, i, d, hs)) ==
              Verdict(Leave(l, d)).Then(
                if Ascends(b, l) then First(After(b[l].parent.list, ParentLine(b, l), d - 1, true)) else Exhausted)
      ensures |After(l, i, d, hs)| ==
              1 + if Ascends(b, l) then |After(b[l].parent.list, ParentLine(b, l), d - 1, true)| else 0
    {
      hide Search.Walk, Search.First, Search.Verdict, Search.Up, Search.After, ParentLine;
      LeaveParts(l, i, d, hs);
      FirstCons(Leave(l, d), if Ascends(b, l) then After(b[l].parent.list, ParentLine(b, l), d - 1, true) else []);
      FirstNone();
    }
  }
}
