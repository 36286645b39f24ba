// List::RamList (src/ramlist.cc): a vector of owned pointers to list items.
module RamLists {
  import opened Wrappers

  // An item constructed by some `new` expression; `serial` tells apart items of equal content.
  datatype Item<T> = Item(serial: nat, content: T)

  // A vector element; None is the null pointer.
  type Slot<T> = Option<Item<T>>

  // All items a vector owns
  ghost function Owned<T>(slots: seq<Slot<T>>): multiset<Item<T>> {
    if slots == [] then multiset{}
    else Owned(slots[..|slots| - 1]) + OwnedBy(slots[|slots| - 1])
  }

  ghost function OwnedBy<T>(slot: Slot<T>): multiset<Item<T>> {
    if slot.Some? then multiset{slot.value} else multiset{}
  }

  function Nulls<T>(n: nat): (s: seq<Slot<T>>)
    ensures |s| == n && forall i :: 0 <= i < n ==> s[i] == None
  {
    seq(n, _ => None)
  }

  lemma {:induction false} OwnedConcat<T>(x: seq<Slot<T>>, y: seq<Slot<T>>)
    ensures Owned(x + y) == Owned(x) + Owned(y)
  {
    if y == [] {
      assert x + y == x;
    } else {
      assert (x + y)[..|x + y| - 1] == x + y[..|y| - 1];
      OwnedConcat(x, y[..|y| - 1]);
    }
  }

  lemma {:induction false} OwnedNulls<T>(n: nat)
    ensures Owned(Nulls<T>(n)) == multiset{}
  {
    if n > 0 {
      assert Nulls<T>(n)[..n - 1] == Nulls<T>(n - 1);
      OwnedNulls<T>(n - 1);
    }
  }

  lemma OwnedStep<T>(slots: seq<Slot<T>>, i: nat)
    requires i < |slots|
    ensures Owned(slots[..i + 1]) == Owned(slots[..i]) + OwnedBy(slots[i])
  {
    assert slots[..i + 1][..i] == slots[..i];
  }

  lemma OwnedUpdate<T>(slots: seq<Slot<T>>, i: nat, slot: Slot<T>)
    requires i < |slots|
    ensures Owned(slots[i := slot]) + OwnedBy(slots[i]) == Owned(slots) + OwnedBy(slot)
  {
    var front, back := slots[..i], slots[i + 1..];
    assert slots == front + ([slots[i]] + back) && slots[i := slot] == front + ([slot] + back);
    OwnedConcat(front, [slots[i]] + back);
    OwnedConcat(front, [slot] + back);
    OwnedConcat([slots[i]], back);
    OwnedConcat([slot], back);
    OwnedOne(slots[i]);
    OwnedOne(slot);
  }

  lemma OwnedOne<T>(slot: Slot<T>)
    ensures Owned([slot]) == OwnedBy(slot)
  {
    assert [slot][..0] == [];
  }

  lemma OwnedEmpty<T>()
    ensures Owned<T>([]) == multiset{}
  {
  }

  lemma Shifted<T>(slots: seq<Slot<T>>, count: nat)
    requires count <= |slots|
    ensures Owned(slots[count..] + Nulls(count)) + Owned(slots[..count]) == Owned(slots)
    ensures Owned(Nulls(|slots| - count) + slots[..count]) + Owned(slots[count..]) == Owned(slots)
  {
    hide Owned, OwnedBy;
    OwnedConcat(slots[count..], Nulls(count));
    OwnedConcat(Nulls(|slots| - count), slots[..count]);
    OwnedNulls<T>(count);
    OwnedNulls<T>(|slots| - count);
    OwnedConcat(slots[..count], slots[count..]);
    assert slots[..count] + slots[count..] == slots;
  }

  lemma Rebalance<T>(gone: seq<Slot<T>>, kept: seq<Slot<T>>, all: seq<Slot<T>>, deleted: multiset<Item<T>>)
    requires Owned(kept) + Owned(gone) == Owned(all)
    ensures Owned(kept) + (deleted + Owned(gone)) == Owned(all) + deleted
  {
    hide Owned, OwnedBy;
    assert Owned(kept) + (deleted + Owned(gone)) == (Owned(kept) + Owned(gone)) + deleted;
  }

  class RamList<T(==)> {
    var items: seq<Slot<T>>
    // all items handed over to this list so far, and those it has deleted
    ghost var received: multiset<Item<T>>
    ghost var deleted: multiset<Item<T>>

    // Every item received is either held, or has been deleted: exactly once each, as long as
    // each item is handed over once only.
    ghost predicate Valid()
      reads this
    {
      Owned(items) + deleted == received
    }

    // All items handed over are different.
    ghost predicate AllDistinct()
      reads this
    {
      forall x :: x in received ==> received[x] == 1
    }

    constructor ()
      ensures Valid() && items == [] && received == multiset{}
    {
      items := [];
      received := multiset{};
      deleted := multiset{};
    }

    // `delete p`
    ghost method Delete(p: Slot<T>)
      modifies this`deleted
      ensures deleted == old(deleted) + OwnedBy(p)
    {
      deleted := deleted + OwnedBy(p);
    }

    method Clear()
      requires Valid()
      modifies this
      ensures Valid() && items == [] && received == old(received)
      ensures deleted == received
    {
      hide Owned, OwnedBy;
      DeleteFirst(|items|);
      assert items[..|items|] == items;
      items := [];
      OwnedEmpty<T>();
    }

    function GetItem(line: nat): Slot<T>
      reads this
    {
      if line >= |items| then None else items[line]
    }

    method Append(item: Item<T>) returns (line: nat)
      requires Valid()
      modifies this
      ensures Valid() && items == old(items) + [Some(item)] && line == |old(items)|
      ensures received == old(received) + multiset{item} && deleted == old(deleted)
    {
      hide Owned;
      OwnedConcat(items, [Some(item)]);
      OwnedOne(Some(item));
      items := items + [Some(item)];
      received := received + multiset{item};
      return |items| - 1;
    }

    method Replace(line: nat, item: Item<T>)
      requires Valid() && line < |items|
      modifies this
      ensures Valid() && items == old(items)[line := Some(item)]
      ensures received == old(received) + multiset{item}
      ensures deleted == old(deleted) + OwnedBy(old(items)[line])
    {
      hide Owned;
      OwnedUpdate(items, line, Some(item));
      ghost var gone := OwnedBy(items[line]);
      if items[line].Some? {
        Delete(items[line]);
      }
      items := items[line := Some(item)];
      received := received + multiset{item};
      assert Owned(items) + deleted == (Owned(items) + gone) + old(deleted);
    }

    // Throw away the first `count` items, move the others to the front, and leave empty slots.
    method ShiftUp(count: nat)
      requires Valid() && count <= |items|
      modifies this
      ensures Valid() && items == old(items)[count..] + Nulls(count)
      ensures received == old(received) && deleted == old(deleted) + Owned(old(items)[..count])
    {
      hide Owned, OwnedBy;
      if count == 0 {
        OwnedEmpty<T>();
        assert items[count..] + Nulls(0) == items && items[..0] == [];
        return;
      }
      DeleteFirst(count);
      MoveToFront(count);
      ClearBack(count);
      assert items == old(items)[count..] + Nulls(count);
      Shifted(old(items), count);
      Rebalance(old(items)[..count], items, old(items), old(deleted));
    }

    // Throw away the last `count` items, move the others to the back, and leave empty slots.
    method ShiftDown(count: nat)
      requires Valid() && count <= |items|
      modifies this
      ensures Valid() && items == Nulls(count) + old(items)[..|old(items)| - count]
      ensures received == old(received) && deleted == old(deleted) + Owned(old(items)[|old(items)| - count..])
    {
      hide Owned, OwnedBy;
      if count == 0 {
        OwnedEmpty<T>();
        assert Nulls(0) + items[..|items| - count] == items && items[|items|..] == [];
        return;
      }
      DeleteLast(count);
      MoveToBack(count);
      ClearFront(count);
      assert items == Nulls(count) + old(items)[..|items| - count];
      Shifted(old(items), |items| - count);
      Rebalance(old(items)[|items| - count..], items, old(items), old(deleted));
    }

    // The loops of the two shift operations: std::for_each() with `delete`, and std::move()

    method DeleteFirst(count: nat)
      requires count <= |items|
      modifies this`deleted
      ensures deleted == old(deleted) + Owned(items[..count])
    {
      hide Owned, OwnedBy;
      OwnedEmpty<T>();
      var i := 0;
      while i < count
        invariant i <= count && deleted == old(deleted) + Owned(items[..i])
      {
        OwnedStep(items, i);
        Delete(items[i]);
        i := i + 1;
      }
    }

    method DeleteLast(count: nat)
      requires count <= |items|
      modifies this`deleted
      ensures deleted == old(deleted) + Owned(items[|items| - count..])
    {
      hide Owned, OwnedBy;
      OwnedEmpty<T>();
      var i := |items|;
      assert items[i..] == [];
      while i > |items| - count
        invariant |items| - count <= i <= |items| && deleted == old(deleted) + Owned(items[i..])
      {
        i := i - 1;
        assert items[i..] == [items[i]] + items[i + 1..];
        OwnedConcat([items[i]], items[i + 1..]);
        OwnedOne(items[i]);
        Delete(items[i]);
      }
    }

    method MoveToFront(count: nat)
      requires count <= |items|
      modifies this`items
      ensures |items| == |old(items)| && items[..|items| - count] == old(items)[count..]
    {
      var i := 0;
      while i < |items| - count
        invariant i <= |items| - count && |items| == |old(items)|
        invariant forall j :: 0 <= j < i ==> items[j] == old(items)[j + count]
        invariant forall j :: i <= j < |items| ==> items[j] == old(items)[j]
      {
        items := items[i := items[i + count]];
        i := i + 1;
      }
    }

    method MoveToBack(count: nat)
      requires count <= |items|
      modifies this`items
      ensures |items| == |old(items)| && items[count..] == old(items)[..|items| - count]
    {
      var i := |items|;
      while i > count
        invariant count <= i <= |items| == |old(items)|
        invariant forall j :: i <= j < |items| ==> items[j] == old(items)[j - count]
        invariant forall j :: 0 <= j < i ==> items[j] == old(items)[j]
      {
        i := i - 1;
        items := items[i := items[i - count]];
      }
    }

    method ClearBack(count: nat)
      requires count <= |items|
      modifies this`items
      ensures items == old(items)[..|old(items)| - count] + Nulls(count)
    {
      var i := |items| - count;
      while i < |items|
        invariant |items| - count <= i <= |items| == |old(items)|
        invariant items[..|items| - count] == old(items)[..|items| - count]
        invariant forall j :: |items| - count <= j < i ==> items[j] == None
      {
        items := items[i := None];
        i := i + 1;
      }
    }

    method ClearFront(count: nat)
      requires count <= |items|
      modifies this`items
      ensures items == Nulls(count) + old(items)[count..]
    {
      var i := count;
      while i > 0
        invariant 0 <= i <= count <= |items| == |old(items)|
        invariant items[count..] == old(items)[count..]
        invariant forall j :: i <= j < count ==> items[j] == None
      {
        i := i - 1;
        items := items[i := None];
      }
    }

    // An item is held in one slot only, and it is not held anymore after it has been deleted.
    lemma HeldOnce(x: Item<T>, i: nat, j: nat)
      requires Valid() && AllDistinct()
      ensures i < |items| && j < |items| && items[i] == items[j] == Some(x) ==> i == j && x !in deleted
    {
      if i < |items| && j < |items| && items[i] == items[j] == Some(x) {
        OwnedAt(items, i, x);
        if i < j {
          OwnedTwice(items, i, j, x);
        } else if j < i {
          OwnedTwice(items, j, i, x);
        }
        assert Owned(items)[x] + deleted[x] == received[x];
      }
    }
  }

  lemma {:induction false} OwnedAt<T>(slots: seq<Slot<T>>, i: nat, x: Item<T>)
    requires i < |slots| && slots[i] == Some(x)
    ensures Owned(slots)[x] >= 1
  {
    if i < |slots| - 1 {
      OwnedAt(slots[..|slots| - 1], i, x);
    }
  }

  lemma {:induction false} OwnedTwice<T>(slots: seq<Slot<T>>, i: nat, j: nat, x: Item<T>)
    requires i < j < |slots| && slots[i] == slots[j] == Some(x)
    ensures Owned(slots)[x] >= 2
  {
    if j < |slots| - 1 {
      OwnedTwice(slots[..|slots| - 1], i, j, x);
    } else {
      OwnedAt(slots[..|slots| - 1], i, x);
    }
  }
}
