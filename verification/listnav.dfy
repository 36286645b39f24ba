// Cursor movement of List::Nav over a list that is filtered by
// NavItemNoFilter (src/listnav.hh).  The two display fields are not modelled.
module ListNav {
  import opened UInt

  datatype WrapMode = NoWrap | WrapToTop | WrapToBottom | FullWrap

  class Nav {
    var cursor: uint32
    // NavItemNoFilter: number of items at the time of the last list_content_changed()
    var visibleItems: uint32
    const wrapMode: WrapMode

    constructor (wrapMode: WrapMode, visibleItems: uint32, line: uint32)
      ensures this.wrapMode == wrapMode && this.visibleItems == visibleItems
      ensures cursor == if line < visibleItems then line else 0
    {
      this.wrapMode := wrapMode;
      this.visibleItems := visibleItems;
      this.cursor := 0;
      new;
      SetCursorByLineNumber(line);
    }

    method ListContentChanged(numberOfItems: uint32)
      modifies this`visibleItems
      ensures visibleItems == numberOfItems
    {
      visibleItems := numberOfItems;
    }

    predicate WrapsDown() {
      wrapMode.FullWrap? || wrapMode.WrapToTop?
    }

    predicate WrapsUp() {
      wrapMode.FullWrap? || wrapMode.WrapToBottom?
    }

    // get_line_number_by_item(): -1 if filtered out or not an `int`.
    function LineNumberByItem(item: uint32): (line: int)
      reads this
      ensures line == -1 || line == item
      ensures line >= 0 <==> item < visibleItems && item <= 0x7FFF_FFFF
    {
      if visibleItems == 0 || item > visibleItems - 1 then -1
      else if item <= INT_MAX then item
      else -1
    }

    method RecoverCursorAndSelection()
      modifies this`cursor
      ensures cursor == 0
    {
      cursor := 0;
    }

    // get_cursor(), including check_selection()
    method GetCursor() returns (c: uint32)
      modifies this`cursor
      ensures cursor == if visibleItems == 0 then 0 else old(cursor)
      ensures c == cursor
    {
      if visibleItems == 0 {
        RecoverCursorAndSelection();
      }
      c := cursor;
    }

    method SetCursorByLineNumber(line: uint32)
      modifies this`cursor
      ensures cursor == if line < visibleItems then line else 0
    {
      if line == 0 || visibleItems == 0 || line > visibleItems - 1 {
        RecoverCursorAndSelection();
      } else {
        cursor := line;
      }
    }

    method FixupDownCountByWrapMode(count: uint32) returns (wrapped: bool, fixed: uint32)
      modifies this`cursor
      ensures count > 0 && visibleItems == 0 ==> cursor == 0
      ensures count == 0 || visibleItems > 0 ==> cursor == old(cursor)
      ensures wrapped ==> fixed == visibleItems
      ensures wrapped <==> count > 0 && (wrapMode == FullWrap || wrapMode == WrapToTop)
                           && LineNumberByItem(cursor) >= 0 && cursor == visibleItems - 1
      ensures !wrapped && LineNumberByItem(cursor) < 0 ==> fixed == 0
      ensures !wrapped && LineNumberByItem(cursor) >= 0 ==>
                fixed == Min(count, visibleItems - cursor - 1)
    {
      if count == 0 {
        return false, 0;
      }
      var c := GetCursor();
      var currentLine := LineNumberByItem(c);
      if currentLine < 0 {
        return false, 0;
      }
      if count > UINT_MAX - currentLine || currentLine + count >= visibleItems {
        if WrapsDown() && visibleItems - currentLine <= 1 {
          return true, visibleItems;
        }
        return false, visibleItems - currentLine - 1;
      }
      return false, count;
    }

    method FixupUpCountByWrapMode(count: uint32) returns (wrapped: bool, fixed: uint32)
      modifies this`cursor
      ensures count > 0 && visibleItems == 0 ==> cursor == 0
      ensures count == 0 || visibleItems > 0 ==> cursor == old(cursor)
      ensures wrapped ==> fixed == visibleItems
      ensures wrapped <==> (wrapMode == FullWrap || wrapMode == WrapToBottom)
                           && LineNumberByItem(cursor) >= 0 && cursor <= 1 && count > cursor
      ensures !wrapped && LineNumberByItem(cursor) < 0 ==> fixed == 0
      ensures !wrapped && LineNumberByItem(cursor) >= 0 ==> fixed == Min(count, cursor)
    {
      if count == 0 {
        return false, 0;
      }
      var c := GetCursor();
      var currentLine := LineNumberByItem(c);
      if currentLine < 0 {
        return false, 0;
      }
      if count > currentLine {
        if WrapsUp() && currentLine <= 1 {
          return true, visibleItems;
        }
        return false, currentLine;
      }
      return false, count;
    }

    // down(): true if and only if the cursor moved.  It moves by `count` lines or up to the
    // list's end; only from the very last line it wraps around, and not further than to the top.
    method Down(count: uint32) returns (moved: bool)
      modifies this`cursor
      ensures moved <==> cursor != old(cursor) && old(cursor) < visibleItems
      ensures moved ==> old(cursor) <= INT_MAX
      ensures visibleItems == 0 && count > 0 ==> cursor == 0
      ensures count == 0 || (visibleItems > 0 && !(old(cursor) < visibleItems && old(cursor) <= INT_MAX)) ==>
                cursor == old(cursor)
      ensures count > 0 && old(cursor) < visibleItems && old(cursor) <= INT_MAX ==>
                cursor == if (wrapMode == FullWrap || wrapMode == WrapToTop) && old(cursor) == visibleItems - 1 then 0
                          else Min(old(cursor) + count, visibleItems - 1)
    {
      var wrapped, n := FixupDownCountByWrapMode(count);
      if wrapped {
        SetCursorByLineNumber(0);
        return n > 1;
      } else if n == 0 {
        return false;
      }
      var start := cursor;
      var lastSelectable := visibleItems - 1;
      var i := 0;
      while i < n && cursor < lastSelectable
        invariant i <= n && cursor == start + i <= lastSelectable
        decreases n - i
      {
        cursor := cursor + 1;
        i := i + 1;
      }
      return true;
    }

    // up(): moves by `count` lines or up to the list's start.  Wrapping around to the bottom
    // happens from the first two lines, so that in a two-line list the cursor may be reported
    // to have moved although it has been put back onto line 1.
    method Up(count: uint32) returns (moved: bool)
      modifies this`cursor
      ensures moved ==> old(cursor) < visibleItems
      ensures old(cursor) < visibleItems ==>
                moved == (cursor != old(cursor) ||
                          ((wrapMode == FullWrap || wrapMode == WrapToBottom)
                           && visibleItems == 2 && old(cursor) == 1 && count > 1))
      ensures moved ==> old(cursor) <= INT_MAX
      ensures visibleItems == 0 && count > 0 ==> cursor == 0
      ensures count == 0 || (visibleItems > 0 && !(old(cursor) < visibleItems && old(cursor) <= INT_MAX)) ==>
                cursor == old(cursor)
      ensures count > 0 && old(cursor) < visibleItems && old(cursor) <= INT_MAX ==>
                cursor == if (wrapMode == FullWrap || wrapMode == WrapToBottom)
                             && old(cursor) <= 1 && count > old(cursor) then visibleItems - 1
                          else old(cursor) - Min(count, old(cursor))
    {
      var wrapped, n := FixupUpCountByWrapMode(count);
      if wrapped {
        if n > 0 {
          SetCursorByLineNumber(n - 1);
        }
        return n > 1;
      } else if n == 0 {
        return false;
      }
      if cursor <= 0 {
        return false;
      }
      var start := cursor;
      var i := 0;
      while i < n && cursor > 0
        invariant i <= n && cursor == start - i
        decreases n - i
      {
        cursor := cursor - 1;
        i := i + 1;
      }
      return true;
    }
  }
}
