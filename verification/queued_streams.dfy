// Player::QueuedStreams (src/player_data.cc, src/player_data.hh): the mirror of the queue inside the
// stream player, and the reference counts of the lists the queued streams come from.
module QueuedStreams {
  import opened Wrappers

  // Stream IDs.  0 is the invalid ID; the valid ones are 1 to some maximum, in a circle.
  type Id = nat
  const INVALID: Id := 0
  const MAX_ENTRIES: nat := 20

  type ListId = nat

  datatype State = Floating | Queued | Current | AboutToDie

  datatype QueuedStream = QueuedStream(id: Id, list: ListId, state: State)

  // What a removal results in: a stream, a null pointer, or an exception of type QueueError
  datatype Removal = Removed(stream: QueuedStream) | Nothing | QueueError

  // ---------------------------------------------------------------- reference counts

  function CountIn(counts: map<ListId, nat>, l: ListId): nat {
    if l in counts then counts[l] else 0
  }

  // referenced_lists_
  class ListRefs {
    var counts: map<ListId, nat>

    ghost predicate Valid()
      reads this
    {
      forall l :: l in counts ==> counts[l] > 0
    }

    constructor ()
      ensures Valid() && forall l :: CountIn(counts, l) == 0
    {
      counts := map[];
    }

    method Ref(l: ListId)
      requires Valid()
      modifies this
      ensures Valid() && CountIn(counts, l) == old(CountIn(counts, l)) + 1
      ensures forall m :: m != l ==> CountIn(counts, m) == old(CountIn(counts, m))
    {
      if l in counts {
        counts := counts[l := counts[l] + 1];
      } else {
        counts := counts[l := 1];
      }
    }

    method Unref(l: ListId)
      requires Valid()
      modifies this
      ensures Valid() && CountIn(counts, l) == Less(old(CountIn(counts, l)), 1)
      ensures forall m :: m != l ==> CountIn(counts, m) == old(CountIn(counts, m))
    {
      if l !in counts {
        return;
      }
      counts := counts[l := counts[l] - 1];
      if counts[l] == 0 {
        counts := counts - {l};
      }
    }

    method Clear()
      modifies this
      ensures Valid() && forall l :: CountIn(counts, l) == 0
    {
      counts := map[];
    }
  }

  // Subtraction which stops at zero
  function Less(a: nat, b: nat): nat {
    if a < b then 0 else a - b
  }

  // Streams held which come from a list
  ghost function HeldIds(streams: map<Id, QueuedStream>, l: ListId): set<Id> {
    set id | id in streams && streams[id].list == l
  }

  ghost function Held(streams: map<Id, QueuedStream>, l: ListId): nat {
    |HeldIds(streams, l)|
  }

  lemma HeldWithout(streams: map<Id, QueuedStream>, id: Id, l: ListId)
    requires id in streams
    ensures Held(streams - {id}, l) == Held(streams, l) - if streams[id].list == l then 1 else 0
    ensures streams[id].list == l ==> Held(streams, l) > 0
  {
    assert HeldIds(streams - {id}, l) == HeldIds(streams, l) - {id};
    assert streams[id].list == l <==> id in HeldIds(streams, l);
  }

  lemma HeldWith(streams: map<Id, QueuedStream>, qs: QueuedStream, l: ListId)
    requires qs.id !in streams
    ensures Held(streams[qs.id := qs], l) == Held(streams, l) + if qs.list == l then 1 else 0
  {
    HeldWithout(streams[qs.id := qs], qs.id, l);
    assert streams[qs.id := qs] - {qs.id} == streams;
  }

  // ---------------------------------------------------------------- specification of the queue

  ghost function Ids(queue: seq<Id>): set<Id> {
    set id | id in queue
  }

  ghost predicate Distinct(queue: seq<Id>) {
    forall i, j :: 0 <= i < j < |queue| ==> queue[i] != queue[j]
  }

  // The consistency check of QueuedStreams::log(), and the limit on the length of the queue
  ghost predicate Mirrors(idSpace: nat, streams: map<Id, QueuedStream>, queue: seq<Id>, inFlight: Id) {
    && (inFlight == INVALID || inFlight <= idSpace)
    && |queue| <= MAX_ENTRIES && Distinct(queue) && inFlight !in queue
    && (forall i :: 0 <= i < |queue| ==> 1 <= queue[i] <= idSpace)
    && streams.Keys == Ids(queue) + InFlightIds(inFlight)
    && (forall id :: id in streams ==> streams[id].id == id)
  }

  ghost function InFlightIds(inFlight: Id): set<Id> {
    if inFlight == INVALID then {} else {inFlight}
  }

  // The check as QueuedStreams::log() does it: by sizes, and one ID at a time
  ghost predicate LogSaysConsistent(streams: map<Id, QueuedStream>, queue: seq<Id>, inFlight: Id) {
    && |streams| == |queue| + (if inFlight != INVALID then 1 else 0)
    && Distinct(queue)
    && (forall i :: 0 <= i < |queue| ==> queue[i] != INVALID && queue[i] != inFlight && queue[i] in streams)
    && (inFlight == INVALID || inFlight in streams)
  }

  lemma {:induction false} DistinctSize(queue: seq<Id>)
    requires Distinct(queue)
    ensures |Ids(queue)| == |queue|
  {
    if queue != [] {
      DistinctSize(queue[1..]);
      assert Ids(queue) == {queue[0]} + Ids(queue[1..]);
    } else {
      assert Ids(queue) == {};
    }
  }

  // Counting is enough: the check passes if and only if there is data on the queued streams and the
  // one in flight, and on no others.
  lemma LogCheckIsExact(streams: map<Id, QueuedStream>, queue: seq<Id>, inFlight: Id)
    ensures LogSaysConsistent(streams, queue, inFlight) <==>
            && Distinct(queue) && INVALID !in queue && inFlight !in queue
            && streams.Keys == Ids(queue) + InFlightIds(inFlight)
  {
    hide Distinct, Ids;
    var ids := Ids(queue) + InFlightIds(inFlight);
    assert |streams| == |streams.Keys|;
    InIds(queue);
    if Distinct(queue) && inFlight !in queue {
      DistinctSize(queue);
      assert Ids(queue) !! InFlightIds(inFlight);
      assert |ids| == |queue| + (if inFlight != INVALID then 1 else 0);
      if ids <= streams.Keys && |ids| == |streams.Keys| {
        SameSizeSet(ids, streams.Keys);
      }
    }
  }

  lemma SameSizeSet(a: set<Id>, b: set<Id>)
    requires a <= b && |a| == |b|
    ensures a == b
  {
    assert |b - a| == 0;
    assert b - a == {};
  }

  lemma MirrorsAppend(idSpace: nat, streams: map<Id, QueuedStream>, queue: seq<Id>, inFlight: Id, qs: QueuedStream)
    requires Mirrors(idSpace, streams, queue, inFlight) && |queue| < MAX_ENTRIES
    requires 1 <= qs.id <= idSpace && qs.id !in streams
    ensures Mirrors(idSpace, streams[qs.id := qs], queue + [qs.id], inFlight)
  {
    assert Ids(queue + [qs.id]) == Ids(queue) + {qs.id};
  }

  lemma IdsConcat(a: seq<Id>, b: seq<Id>)
    ensures Ids(a + b) == Ids(a) + Ids(b)
  {
  }

  lemma RemovedIsDistinct(queue: seq<Id>, k: nat)
    requires Distinct(queue) && k < |queue|
    ensures Distinct(queue[..k] + queue[k + 1..])
    ensures queue[k] !in queue[..k] && queue[k] !in queue[k + 1..]
  {
    var rest := queue[..k] + queue[k + 1..];
    forall i, j | 0 <= i < j < |rest| ensures rest[i] != rest[j] {
      var i', j' := if i < k then i else i + 1, if j < k then j else j + 1;
      assert rest[i] == queue[i'] && rest[j] == queue[j'];
    }
  }

  lemma RemovedAt(queue: seq<Id>, k: nat)
    requires Distinct(queue) && k < |queue|
    ensures Ids(queue[..k] + queue[k + 1..]) == Ids(queue) - {queue[k]} && Distinct(queue[..k] + queue[k + 1..])
  {
    hide Distinct;
    RemovedIsDistinct(queue, k);
    IdsConcat(queue[..k], queue[k + 1..]);
    IdsConcat(queue[..k], queue[k..]);
    IdsConcat([queue[k]], queue[k + 1..]);
    assert queue == queue[..k] + queue[k..] && queue[k..] == [queue[k]] + queue[k + 1..];
    assert Ids([queue[k]]) == {queue[k]};
    InIds(queue[..k]);
    InIds(queue[k + 1..]);
  }

  lemma InIds(queue: seq<Id>)
    ensures forall id :: id in Ids(queue) <==> id in queue
    ensures forall i :: 0 <= i < |queue| ==> queue[i] in Ids(queue)
  {
  }

  // An ID is taken out of the queue.
  lemma MirrorsRemove(idSpace: nat, streams: map<Id, QueuedStream>, queue: seq<Id>, inFlight: Id, k: nat)
    requires Mirrors(idSpace, streams, queue, inFlight) && k < |queue|
    ensures queue[k] in streams && queue[k] != INVALID
    ensures Mirrors(idSpace, streams - {queue[k]}, queue[..k] + queue[k + 1..], inFlight)
  {
    hide Distinct, Ids;
    var rest := queue[..k] + queue[k + 1..];
    RemovedAt(queue, k);
    InIds(queue);
    InIds(rest);
    assert forall i :: 0 <= i < |rest| ==> rest[i] in Ids(queue);
  }

  lemma MirrorsLand(idSpace: nat, streams: map<Id, QueuedStream>, queue: seq<Id>, inFlight: Id)
    requires Mirrors(idSpace, streams, queue, inFlight) && inFlight != INVALID
    ensures inFlight in streams && Mirrors(idSpace, streams - {inFlight}, queue, INVALID)
  {
  }

  lemma MirrorsTakeOff(idSpace: nat, streams: map<Id, QueuedStream>, queue: seq<Id>)
    requires Mirrors(idSpace, streams, queue, INVALID) && queue != []
    ensures Mirrors(idSpace, streams, queue[1..], queue[0])
  {
    assert Ids(queue) == {queue[0]} + Ids(queue[1..]);
  }

  class QueuedStreams {
    var streams: map<Id, QueuedStream>
    var queue: seq<Id>
    var inFlight: Id
    var nextFree: Id
    const idSpace: nat
    // where on_remove_cb_ takes effect
    const refs: ListRefs

    predicate IsValidId(id: Id) {
      1 <= id <= idSpace
    }

    function Next(id: Id): Id {
      if id >= idSpace then 1 else id + 1
    }

    ghost predicate Consistent()
      reads this
    {
      && idSpace > MAX_ENTRIES + 1 && IsValidId(nextFree)
      && Mirrors(idSpace, streams, queue, inFlight)
    }

    ghost predicate Valid()
      reads this, refs
    {
      Consistent() && refs.Valid()
    }

    // Each list is referenced as often as there are streams from it.
    ghost predicate Exact()
      reads this, refs
    {
      forall l :: CountIn(refs.counts, l) == Held(streams, l)
    }

    ghost predicate Bounded()
      reads this, refs
    {
      forall l :: CountIn(refs.counts, l) <= Held(streams, l)
    }

    constructor (idSpace: nat, firstId: Id, refs: ListRefs)
      requires idSpace > MAX_ENTRIES + 1 && 1 <= firstId <= idSpace
      ensures Consistent() && this.refs == refs && streams == map[] && queue == [] && inFlight == INVALID
    {
      this.idSpace := idSpace;
      this.refs := refs;
      streams := map[];
      queue := [];
      inFlight := INVALID;
      nextFree := firstId;
    }

    predicate IsFull()
      reads this
    {
      |queue| >= MAX_ENTRIES
    }

    // Number of steps from one ID to another
    function Offset(id: Id, other: Id): int {
      if other >= id then other - id else other - id + idSpace
    }

    // The first `n` IDs from `id` on
    ghost function Arc(id: Id, n: nat): (r: set<Id>)
      requires IsValidId(id) && n <= idSpace
      ensures |r| == n && forall i :: i in r <==> IsValidId(i) && Offset(id, i) < n
    {
      if n == 0 then {}
      else Arc(id, n - 1) + {if id + n - 1 <= idSpace then id + n - 1 else id + n - 1 - idSpace}
    }

    lemma StreamsBound()
      requires Consistent()
      ensures |streams| <= MAX_ENTRIES + 1
    {
      IdsBound(queue);
      assert |streams| == |streams.Keys|;
      assert streams.Keys <= Ids(queue) + {inFlight};
      SubsetSize(streams.Keys, Ids(queue) + {inFlight});
    }

    lemma NextOffset(start: Id, id: Id)
      requires IsValidId(start) && IsValidId(id) && Offset(start, id) + 1 < idSpace
      ensures IsValidId(Next(id)) && Offset(start, Next(id)) == Offset(start, id) + 1
    {
    }

    // The IDs looked at so far are all in use, so they cannot be more than there are streams.
    lemma {:induction false} AllTaken(start: Id, id: Id)
      requires IsValidId(start) && IsValidId(id) && id in streams
      requires Offset(start, id) <= |streams| < idSpace
      requires Arc(start, Offset(start, id)) <= streams.Keys
      ensures Arc(start, Offset(start, id) + 1) <= streams.Keys && Offset(start, id) + 1 <= |streams|
    {
      var n := Offset(start, id);
      assert Arc(start, n + 1) <= Arc(start, n) + {id};
      SubsetSize(Arc(start, n + 1), streams.Keys);
      assert |streams| == |streams.Keys|;
    }

    // Find an ID which is not in use, starting at the next free ID.
    method FreshId() returns (id: Id)
      requires IsValidId(nextFree) && |streams| < idSpace
      modifies this`nextFree
      ensures IsValidId(id) && id !in streams && nextFree == Next(id)
      ensures forall i :: IsValidId(i) && Offset(old(nextFree), i) < Offset(old(nextFree), id) ==> i in streams
    {
      hide QueuedStreams.Next;
      ghost var start := nextFree;
      id := nextFree;
      nextFree := Next(nextFree);
      while id in streams
        invariant IsValidId(id) && Offset(start, id) <= |streams| && nextFree == Next(id)
        invariant Arc(start, Offset(start, id)) <= streams.Keys
        decreases |streams| - Offset(start, id)
      {
        AllTaken(start, id);
        NextOffset(start, id);
        id := nextFree;
        nextFree := Next(nextFree);
      }
    }

    // append(): the ID of the stream queued, or the invalid ID
    method Append(list: ListId) returns (id: Id)
      requires Valid()
      modifies this
      ensures Valid()
      ensures id == INVALID <==> |old(queue)| >= 20
      ensures if id == INVALID then streams == old(streams) && queue == old(queue)
              else
                && IsValidId(id) && id !in old(streams)
                && streams == old(streams)[id := QueuedStream(id, list, Floating)]
                && queue == old(queue) + [id]
      ensures inFlight == old(inFlight)
    {
      hide Mirrors;
      if IsFull() {
        return INVALID;
      }
      StreamsBound();
      id := FreshId();
      MirrorsAppend(idSpace, streams, queue, inFlight, QueuedStream(id, list, Floating));
      streams := streams[id := QueuedStream(id, list, Floating)];
      queue := queue + [id];
    }

    // The other lists' reference counts stay as they are; `n` references to list `l` are dropped.
    twostate predicate Unreferenced(l: ListId, n: nat)
      reads refs
    {
      && CountIn(refs.counts, l) == Less(old(CountIn(refs.counts, l)), n)
      && forall m :: m != l ==> CountIn(refs.counts, m) == old(CountIn(refs.counts, m))
    }

    // erase_stream_from_container(): None stands for the exception
    method EraseStream(id: Id) returns (r: Option<QueuedStream>)
      requires refs.Valid()
      modifies this`streams, refs
      ensures refs.Valid()
      ensures r.None? <==> id == INVALID || id !in old(streams)
      ensures r.None? ==> streams == old(streams) && forall l :: CountIn(refs.counts, l) == old(CountIn(refs.counts, l))
      ensures r.Some? ==>
                && r.value == old(streams)[id].(state := AboutToDie) && streams == old(streams) - {id}
                && Unreferenced(r.value.list, 1)
    {
      if id == INVALID || id !in streams {
        return None;
      }
      var qs := streams[id];
      refs.Unref(qs.list);
      streams := streams - {id};
      return Some(qs.(state := AboutToDie));
    }

    // remove_front(): take the front of the queue, or else the stream in flight, out of the IDs.
    method RemoveFront(ids: set<Id>) returns (r: Removal, rest: set<Id>)
      requires Valid()
      modifies this`streams, this`queue, this`inFlight, refs
      ensures Valid()
      ensures r.Removed? <==> IsFront(old(queue), ids) || (old(inFlight) != INVALID && old(inFlight) in ids)
      ensures r.Nothing? <==> old(queue) == [] && old(inFlight) == INVALID
      ensures !r.Removed? ==> rest == ids && streams == old(streams) && queue == old(queue) && inFlight == old(inFlight)
      ensures !r.Removed? ==> forall l :: CountIn(refs.counts, l) == old(CountIn(refs.counts, l))
      ensures r.Removed? ==>
                && rest == ids - {r.stream.id} && r.stream.id in ids && r.stream.id in old(streams)
                && r.stream == old(streams)[r.stream.id].(state := AboutToDie)
                && streams == old(streams) - {r.stream.id} && Unreferenced(r.stream.list, 1)
                && if IsFront(old(queue), ids) then
                     r.stream.id == old(queue)[0] && queue == old(queue)[1..] && inFlight == old(inFlight)
                   else r.stream.id == old(inFlight) && queue == old(queue) && inFlight == INVALID
    {
      hide Mirrors, Ids, Distinct;
      MirrorsIds(idSpace, streams, queue, inFlight);
      rest := ids;
      if queue == [] && inFlight == INVALID {
        return Nothing, ids;
      }
      if queue != [] && queue[0] in ids {
        MirrorsRemove(idSpace, streams, queue, inFlight, 0);
        assert queue[..0] + queue[1..] == queue[1..];
        rest := ids - {queue[0]};
        var qs := EraseStream(queue[0]);
        queue := queue[1..];
        return Removed(qs.value), rest;
      } else if inFlight != INVALID && inFlight in ids {
        MirrorsLand(idSpace, streams, queue, inFlight);
        rest := ids - {inFlight};
        var qs := EraseStream(inFlight);
        inFlight := INVALID;
        return Removed(qs.value), rest;
      } else {
        return QueueError, ids;
      }
    }

    // remove_anywhere(): None stands for the null pointer
    method RemoveAnywhere(id: Id) returns (r: Option<QueuedStream>)
      requires Valid()
      modifies this`streams, this`queue, refs
      ensures Valid()
      ensures r.Some? <==> id in old(queue)
      ensures r.None? ==> streams == old(streams) && queue == old(queue)
                          && forall l :: CountIn(refs.counts, l) == old(CountIn(refs.counts, l))
      ensures r.Some? ==>
                && id in old(streams)
                && r.value == old(streams)[id].(state := AboutToDie) && streams == old(streams) - {id}
                && Unreferenced(r.value.list, 1)
                && exists k :: 0 <= k < |old(queue)| && old(queue)[k] == id
                               && queue == old(queue)[..k] + old(queue)[k + 1..]
    {
      var k := 0;
      while k < |queue| && queue[k] != id
        invariant k <= |queue| && id !in queue[..k]
      {
        k := k + 1;
      }
      if k == |queue| {
        assert queue[..k] == queue;
        return None;
      }
      MirrorsRemove(idSpace, streams, queue, inFlight, k);
      r := EraseStream(id);
      queue := queue[..k] + queue[k + 1..];
    }

    // shift_if_not_flying(id): whatever is in flight is removed unless it is the given stream.
    method ShiftUnless(id: Id) returns (r: Option<QueuedStream>)
      requires Valid()
      modifies this`streams, this`queue, this`inFlight, refs
      ensures Valid()
      ensures id != INVALID && id == old(inFlight) ==>
                r == None && streams == old(streams) && queue == old(queue) && inFlight == old(inFlight)
      ensures !(id != INVALID && id == old(inFlight)) ==>
                && (r.Some? <==> old(inFlight) != INVALID) && streams == old(streams) - InFlightIds(old(inFlight))
                && if old(queue) == [] then queue == [] && inFlight == INVALID
                   else inFlight == old(queue)[0] && queue == old(queue)[1..]
      ensures r.Some? ==> r.value == old(streams)[old(inFlight)].(state := AboutToDie) && Unreferenced(r.value.list, 1)
      ensures r.None? ==> forall l :: CountIn(refs.counts, l) == old(CountIn(refs.counts, l))
    {
      hide Mirrors;
      if id != INVALID && id == inFlight {
        return None;
      }
      if inFlight != INVALID {
        MirrorsLand(idSpace, streams, queue, inFlight);
        r := EraseStream(inFlight);
      } else {
        r := None;
      }
      if queue == [] {
        inFlight := INVALID;
      } else {
        MirrorsTakeOff(idSpace, streams, queue);
        inFlight := queue[0];
        queue := queue[1..];
      }
    }

    // shift(): true unless there has been an exception
    method Shift(expectedNext: Id) returns (ok: bool, r: Option<QueuedStream>)
      requires Valid()
      modifies this`streams, this`queue, this`inFlight, refs
      ensures Valid()
      ensures ok <==> expectedNext == old(inFlight)
                      || expectedNext == if old(queue) == [] then INVALID else old(queue)[0]
      ensures !ok ==> streams == old(streams) && queue == old(queue) && inFlight == old(inFlight)
      ensures ok && expectedNext != INVALID ==> inFlight == expectedNext
      ensures ok && expectedNext != INVALID && expectedNext == old(inFlight) ==>
                streams == old(streams) && queue == old(queue)
      ensures ok && expectedNext != INVALID && expectedNext != old(inFlight) ==>
                queue == old(queue)[1..] && streams == old(streams) - InFlightIds(old(inFlight))
      ensures ok && expectedNext == INVALID ==>
                && streams == old(streams) - InFlightIds(old(inFlight))
                && if old(queue) == [] then queue == [] && inFlight == INVALID
                   else inFlight == old(queue)[0] && queue == old(queue)[1..]
      ensures r.Some? ==> old(inFlight) in old(streams) && r.value == old(streams)[old(inFlight)].(state := AboutToDie)
                          && streams == old(streams) - {old(inFlight)} && Unreferenced(r.value.list, 1)
      ensures r.None? ==> streams == old(streams) && forall l :: CountIn(refs.counts, l) == old(CountIn(refs.counts, l))
    {
      var nextId := if queue == [] then INVALID else queue[0];
      if nextId != expectedNext && inFlight != expectedNext {
        return false, None;
      }
      r := ShiftUnless(expectedNext);
      ok := true;
    }

    // shift_if_not_flying()
    method ShiftIfNotFlying() returns (shifted: bool)
      requires Valid()
      modifies this`queue, this`inFlight
      ensures Valid()
      ensures shifted <==> old(inFlight) == INVALID && old(queue) != []
      ensures if shifted then inFlight == old(queue)[0] && queue == old(queue)[1..]
              else inFlight == old(inFlight) && queue == old(queue)
    {
      if inFlight != INVALID {
        return false;
      }
      if queue == [] {
        return false;
      }
      MirrorsTakeOff(idSpace, streams, queue);
      inFlight := queue[0];
      queue := queue[1..];
      return true;
    }

    // The callback is called for each of the given streams.
    method NotifyRemoved(ids: set<Id>)
      requires refs.Valid() && ids <= streams.Keys
      modifies refs
      ensures refs.Valid()
      ensures forall l :: CountIn(refs.counts, l) == Less(old(CountIn(refs.counts, l)), HeldIn(streams, ids, l))
    {
      var todo := ids;
      while todo != {}
        invariant refs.Valid() && todo <= ids
        invariant forall l :: Less(CountIn(refs.counts, l), HeldIn(streams, todo, l)) ==
                              Less(old(CountIn(refs.counts, l)), HeldIn(streams, ids, l))
      {
        var id :| id in todo;
        forall l ensures HeldIn(streams, todo, l) ==
                         HeldIn(streams, todo - {id}, l) + if streams[id].list == l then 1 else 0 {
          HeldInWithout(streams, todo, id, l);
        }
        refs.Unref(streams[id].list);
        todo := todo - {id};
      }
      forall l ensures HeldIn(streams, {}, l) == 0 {
        assert HeldInIds(streams, {}, l) == {};
      }
    }

    method Clear() returns (removed: nat)
      requires Valid()
      modifies this`streams, this`queue, this`inFlight, refs
      ensures Valid() && streams == map[] && queue == [] && inFlight == INVALID
      ensures removed == |old(streams)|
      ensures forall l :: CountIn(refs.counts, l) == Less(old(CountIn(refs.counts, l)), old(Held(streams, l)))
    {
      NotifyRemoved(streams.Keys);
      forall l ensures HeldIn(streams, streams.Keys, l) == Held(streams, l) {
        assert HeldInIds(streams, streams.Keys, l) == HeldIds(streams, l);
      }
      removed := |streams|;
      streams := map[];
      queue := [];
      inFlight := INVALID;
    }

    // clear_if(): the streams for which the predicate holds are removed, the others remain as they
    // are, and in the same order.
    method ClearIf(pred: QueuedStream -> bool) returns (removed: nat)
      requires Valid()
      modifies this`streams, this`queue, this`inFlight, refs
      ensures Valid()
      ensures streams == Remaining(old(streams), pred)
      ensures queue == Kept(old(queue), streams.Keys)
      ensures inFlight == if old(inFlight) in streams then old(inFlight) else INVALID
      ensures removed == |old(streams)| - |streams|
      ensures forall l :: Held(streams, l) <= old(Held(streams, l))
                          && CountIn(refs.counts, l) ==
                             Less(old(CountIn(refs.counts, l)), old(Held(streams, l)) - Held(streams, l))
    {
      hide Mirrors, Held, HeldIn, Kept;
      var remaining := Remaining(streams, pred);
      RemainingSize(streams, remaining);
      NotifyRemoved(streams.Keys - remaining.Keys);
      forall l ensures HeldIn(streams, streams.Keys - remaining.Keys, l) == Held(streams, l) - Held(remaining, l) {
        HeldSplit(streams, streams.Keys - remaining.Keys, remaining, l);
      }
      removed := |streams| - |remaining|;
      Retain(remaining);
    }

    // clear_if(), after the streams to be removed have been sorted out
    method Retain(remaining: map<Id, QueuedStream>)
      requires Valid() && IsPart(remaining, streams)
      modifies this`streams, this`queue, this`inFlight
      ensures Consistent() && streams == remaining
      ensures queue == Kept(old(queue), remaining.Keys)
      ensures inFlight == if old(inFlight) in remaining then old(inFlight) else INVALID
    {
      hide Mirrors, Kept;
      MirrorsKept(idSpace, streams, queue, inFlight, remaining);
      if remaining == map[] {
        KeptNone(queue, {});
        streams := map[];
        queue := [];
        inFlight := INVALID;
        return;
      }
      if |streams| - |remaining| == 0 {
        SameSize(streams, remaining);
        KeptAll(queue, streams.Keys);
        InFlightHeld(idSpace, streams, queue, inFlight);
        streams := remaining;
        return;
      }
      streams := remaining;
      queue := Kept(queue, streams.Keys);
      if inFlight !in streams {
        inFlight := INVALID;
      }
    }
  }

  function Remaining(streams: map<Id, QueuedStream>, pred: QueuedStream -> bool): map<Id, QueuedStream> {
    map id | id in streams && !pred(streams[id]) :: streams[id]
  }

  ghost predicate IsPart(part: map<Id, QueuedStream>, streams: map<Id, QueuedStream>) {
    part.Keys <= streams.Keys && forall id :: id in part ==> part[id] == streams[id]
  }

  lemma RemainingSize(streams: map<Id, QueuedStream>, part: map<Id, QueuedStream>)
    requires IsPart(part, streams)
    ensures |part| <= |streams| && part.Keys == streams.Keys - (streams.Keys - part.Keys)
  {
    assert |part| == |part.Keys| && |streams| == |streams.Keys|;
    SubsetSize(part.Keys, streams.Keys);
  }

  lemma SameSize(streams: map<Id, QueuedStream>, part: map<Id, QueuedStream>)
    requires IsPart(part, streams) && |part| == |streams|
    ensures part == streams
  {
    assert |part| == |part.Keys| && |streams| == |streams.Keys|;
    assert |streams.Keys - part.Keys| == |streams.Keys| - |part.Keys|;
    assert streams.Keys - part.Keys == {};
  }

  lemma MirrorsIds(idSpace: nat, streams: map<Id, QueuedStream>, queue: seq<Id>, inFlight: Id)
    requires Mirrors(idSpace, streams, queue, inFlight)
    ensures (forall id :: id in streams ==> streams[id].id == id) && INVALID !in streams && INVALID !in queue
    ensures inFlight != INVALID ==> inFlight in streams && inFlight !in Ids(queue)
  {
  }

  lemma InFlightHeld(idSpace: nat, streams: map<Id, QueuedStream>, queue: seq<Id>, inFlight: Id)
    requires Mirrors(idSpace, streams, queue, inFlight)
    ensures inFlight != INVALID ==> inFlight in streams
  {
  }

  ghost function HeldInIds(streams: map<Id, QueuedStream>, ids: set<Id>, l: ListId): set<Id> {
    set id | id in ids && id in streams && streams[id].list == l
  }

  // Number of streams from a list among the given ones
  ghost function HeldIn(streams: map<Id, QueuedStream>, ids: set<Id>, l: ListId): nat {
    |HeldInIds(streams, ids, l)|
  }

  lemma HeldInWithout(streams: map<Id, QueuedStream>, ids: set<Id>, id: Id, l: ListId)
    requires id in ids && id in streams
    ensures HeldIn(streams, ids, l) == HeldIn(streams, ids - {id}, l) + if streams[id].list == l then 1 else 0
  {
    assert HeldInIds(streams, ids - {id}, l) == HeldInIds(streams, ids, l) - {id};
    assert streams[id].list == l <==> id in HeldInIds(streams, ids, l);
  }

  lemma HeldSplit(streams: map<Id, QueuedStream>, gone: set<Id>, remaining: map<Id, QueuedStream>, l: ListId)
    requires gone <= streams.Keys && remaining.Keys == streams.Keys - gone && IsPart(remaining, streams)
    ensures HeldIn(streams, gone, l) == Held(streams, l) - Held(remaining, l)
  {
    assert HeldIds(streams, l) == HeldInIds(streams, gone, l) + HeldIds(remaining, l);
    assert HeldInIds(streams, gone, l) !! HeldIds(remaining, l);
  }

  // The elements of a queue which are in the given set, in their order
  function Kept(queue: seq<Id>, ids: set<Id>): (r: seq<Id>) {
    if queue == [] then []
    else Kept(queue[..|queue| - 1], ids) + if queue[|queue| - 1] in ids then [queue[|queue| - 1]] else []
  }

  lemma {:induction false} KeptElements(queue: seq<Id>, ids: set<Id>)
    ensures |Kept(queue, ids)| <= |queue| && Ids(Kept(queue, ids)) == Ids(queue) * ids
    ensures Distinct(queue) ==> Distinct(Kept(queue, ids))
  {
    if queue != [] {
      var front, last := queue[..|queue| - 1], queue[|queue| - 1];
      KeptElements(front, ids);
      assert queue == front + [last];
      assert Ids(queue) == Ids(front) + {last};
      assert Ids(Kept(queue, ids)) == Ids(Kept(front, ids)) + if last in ids then {last} else {};
      if Distinct(queue) {
        assert last !in Ids(front);
        assert forall k :: 0 <= k < |Kept(front, ids)| ==> Kept(front, ids)[k] in Ids(Kept(front, ids));
      }
    } else {
      assert Ids(queue) == {};
    }
  }

  ghost predicate InOrder(queue: seq<Id>, a: Id, b: Id) {
    exists i, j :: 0 <= i < j < |queue| && queue[i] == a && queue[j] == b
  }

  lemma InOrderLast(front: seq<Id>, last: Id, a: Id, b: Id)
    ensures InOrder(front + [last], a, b) <==> InOrder(front, a, b) || (a in front && b == last)
  {
    var queue := front + [last];
    if InOrder(front, a, b) {
      var i, j :| 0 <= i < j < |front| && front[i] == a && front[j] == b;
      assert queue[i] == a && queue[j] == b;
    }
    if a in front && b == last {
      var i :| 0 <= i < |front| && front[i] == a;
      assert queue[i] == a && queue[|front|] == b;
    }
  }

  // Streams which remain keep their order.
  lemma {:induction false} KeptInOrder(queue: seq<Id>, ids: set<Id>, a: Id, b: Id)
    ensures InOrder(Kept(queue, ids), a, b) <==> InOrder(queue, a, b) && a in ids && b in ids
  {
    if queue != [] {
      var front, last := queue[..|queue| - 1], queue[|queue| - 1];
      KeptInOrder(front, ids, a, b);
      KeptElements(front, ids);
      assert queue == front + [last];
      InIds(front);
      InIds(Kept(front, ids));
      InOrderLast(front, last, a, b);
      InOrderLast(Kept(front, ids), last, a, b);
      assert Kept(queue, ids) == if last in ids then Kept(front, ids) + [last] else Kept(front, ids);
      assert a in Ids(Kept(front, ids)) <==> a in Ids(front) && a in ids;
    }
  }

  lemma {:induction false} KeptAll(queue: seq<Id>, ids: set<Id>)
    requires Ids(queue) <= ids
    ensures Kept(queue, ids) == queue
  {
    if queue != [] {
      assert queue[|queue| - 1] in Ids(queue);
      assert Ids(queue[..|queue| - 1]) <= Ids(queue);
      KeptAll(queue[..|queue| - 1], ids);
    }
  }

  lemma {:induction false} KeptNone(queue: seq<Id>, ids: set<Id>)
    requires Ids(queue) !! ids
    ensures Kept(queue, ids) == []
  {
    if queue != [] {
      assert queue[|queue| - 1] in Ids(queue);
      assert Ids(queue[..|queue| - 1]) <= Ids(queue);
      KeptNone(queue[..|queue| - 1], ids);
    }
  }

  lemma MirrorsKept(idSpace: nat, streams: map<Id, QueuedStream>, queue: seq<Id>, inFlight: Id,
                    remaining: map<Id, QueuedStream>)
    requires Mirrors(idSpace, streams, queue, inFlight) && IsPart(remaining, streams)
    ensures Mirrors(idSpace, remaining, Kept(queue, remaining.Keys),
                    if inFlight in remaining then inFlight else INVALID)
    ensures INVALID !in remaining && Ids(queue) <= streams.Keys
  {
    var kept := Kept(queue, remaining.Keys);
    KeptElements(queue, remaining.Keys);
    assert forall k :: 0 <= k < |kept| ==> kept[k] in Ids(kept);
    assert forall id :: id in Ids(queue) ==> 1 <= id <= idSpace;
    assert forall id :: id in kept ==> id in Ids(kept);
  }

  predicate IsFront(queue: seq<Id>, ids: set<Id>) {
    queue != [] && queue[0] in ids
  }

  lemma {:induction false} IdsBound(queue: seq<Id>)
    ensures |Ids(queue)| <= |queue|
  {
    if queue != [] {
      IdsBound(queue[1..]);
      assert Ids(queue) == {queue[0]} + Ids(queue[1..]);
    } else {
      assert Ids(queue) == {};
    }
  }

  lemma {:induction false} SubsetSize(a: set<Id>, b: set<Id>)
    requires a <= b
    ensures |a| <= |b|
  {
    if a != {} {
      var x :| x in a;
      SubsetSize(a - {x}, b - {x});
    }
  }
}
